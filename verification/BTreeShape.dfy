/**
 * The B+Tree as a value: the shape a heap tree has at one moment, what entries
 * it holds, and what insertion does to it.  The heap tree in module BTree is
 * proved to follow these functions step by step.
 */
module BTreeShape {
  import opened Bytes

  const ORDER: nat := 32

  datatype Entry = Entry(key: bytes, value: bytes)

  datatype Tree =
    | Leaf(keys: seq<bytes>, values: seq<bytes>)
    | Inner(keys: seq<bytes>, kids: seq<Tree>)

  // ------------------------------------------------------- sorted entries

  ghost predicate Sorted(keys: seq<bytes>)
  {
    forall i, j :: 0 <= i < j < |keys| ==> Rank(keys[i]) < Rank(keys[j])
  }

  ghost predicate SortedEntries(es: seq<Entry>)
  {
    forall i, j :: 0 <= i < j < |es| ==> Rank(es[i].key) < Rank(es[j].key)
  }

  ghost predicate Within(es: seq<Entry>, lo: real, hi: real)
  {
    forall i :: 0 <= i < |es| ==> lo <= Rank(es[i].key) < hi
  }

  /** The map a list of entries stands for. */
  ghost function MapOf(es: seq<Entry>): map<bytes, bytes>
  {
    if es == [] then map[] else MapOf(es[..|es| - 1])[es[|es| - 1].key := es[|es| - 1].value]
  }

  /** How many leading entries have a key below `k`. */
  ghost function Position(es: seq<Entry>, k: bytes): (i: nat)
    ensures i <= |es|
    ensures forall j :: 0 <= j < i ==> Rank(es[j].key) < Rank(k)
    ensures i < |es| ==> Rank(k) <= Rank(es[i].key)
  {
    if es == [] || Rank(k) <= Rank(es[0].key) then 0 else 1 + Position(es[1..], k)
  }

  /** Replace or insert the entry for `k` in a sorted list. */
  ghost function PutEntry(es: seq<Entry>, k: bytes, v: bytes): seq<Entry>
  {
    var i := Position(es, k);
    if i < |es| && es[i].key == k then es[..i] + [Entry(k, v)] + es[i + 1..]
    else es[..i] + [Entry(k, v)] + es[i..]
  }

  /** Remove the entry for `k`. */
  ghost function DropEntry(es: seq<Entry>, k: bytes): seq<Entry>
  {
    var i := Position(es, k);
    if i < |es| && es[i].key == k then es[..i] + es[i + 1..] else es
  }

  /** A sorted list and its map hold the same pairs. */
  lemma {:induction false} MapOfMembers(es: seq<Entry>, k: bytes)
    requires SortedEntries(es)
    ensures k in MapOf(es) ==> Entry(k, MapOf(es)[k]) in es
    ensures forall v :: Entry(k, v) in es ==> k in MapOf(es) && MapOf(es)[k] == v
  {
    hide Rank;
    if es != [] {
      var n := |es| - 1;
      MapOfMembers(es[..n], k);
      forall v | Entry(k, v) in es ensures k in MapOf(es) && MapOf(es)[k] == v {
        var i :| 0 <= i < |es| && es[i] == Entry(k, v);
        if i < n { assert es[..n][i] == es[i]; }
      }
    }
  }

  lemma {:induction false} MapOfAppend(a: seq<Entry>, b: seq<Entry>)
    ensures MapOf(a + b) == MapOf(a) + MapOf(b)
    decreases |b|
  {
    if b == [] {
      assert a + b == a;
    } else {
      MapOfAppend(a, b[..|b| - 1]);
      assert (a + b)[..|a + b| - 1] == a + b[..|b| - 1];
    }
  }

  lemma {:induction false} MapOfSingle(e: Entry)
    ensures MapOf([e]) == map[e.key := e.value]
  {
    assert [e][..0] == [];
  }

  /** A key outside the ranks of a list is not in its map. */
  lemma {:induction false} MapOfMisses(es: seq<Entry>, k: bytes)
    requires forall i :: 0 <= i < |es| ==> es[i].key != k
    ensures k !in MapOf(es)
  {
    if es != [] { MapOfMisses(es[..|es| - 1], k); }
  }

  /** Putting into the list puts into the map. */
  lemma {:induction false} MapOfPut(es: seq<Entry>, k: bytes, v: bytes)
    requires SortedEntries(es)
    ensures MapOf(PutEntry(es, k, v)) == MapOf(es)[k := v]
  {
    hide Rank, MapOf, Position, PutEntry, SortedEntries;
    PutEntryShape(es, k, v);
    KeysApart(es, k);
    var i := Position(es, k);
    var j := if i < |es| && es[i].key == k then i + 1 else i;
    assert forall m :: 0 <= m < |es| - j ==> es[j..][m] == es[j + m];
    MapOfAround(es[..i], Entry(k, v), es[j..]);
    if j == i {
      MapOfAppend(es[..i], es[i..]);
      assert es == es[..i] + es[i..];
    } else {
      MapOfAround(es[..i], es[i], es[j..]);
      assert es == es[..i] + [es[i]] + es[j..];
    }
  }

  /** The key lies at its position or nowhere in a sorted list. */
  lemma {:induction false} KeysApart(es: seq<Entry>, k: bytes)
    requires SortedEntries(es)
    ensures forall m :: 0 <= m < |es| && m != Position(es, k) ==> es[m].key != k
  {
    hide Rank, Position;
    var i := Position(es, k);
    if i < |es| { CompareIsRankOrder(es[i].key, k); }
  }

  lemma {:induction false} MapOfAround(a: seq<Entry>, e: Entry, b: seq<Entry>)
    requires forall m :: 0 <= m < |b| ==> b[m].key != e.key
    ensures MapOf(a + [e] + b) == (MapOf(a) + MapOf(b))[e.key := e.value]
  {
    hide MapOf;
    MapOfAppend(a + [e], b);
    MapOfAppend(a, [e]);
    MapOfSingle(e);
    MapOfMisses(b, e.key);
  }

  /** Dropping from the list removes from the map. */
  lemma {:induction false} MapOfDrop(es: seq<Entry>, k: bytes)
    requires SortedEntries(es)
    ensures SortedEntries(DropEntry(es, k))
    ensures MapOf(DropEntry(es, k)) == MapOf(es) - {k}
  {
    hide Rank, MapOf, Position, SortedEntries;
    KeysApart(es, k);
    DropSorted(es, k);
    var i := Position(es, k);
    if i < |es| && es[i].key == k {
      MapWithout(es, i);
    } else {
      MapOfMisses(es, k);
      assert MapOf(es) - {k} == MapOf(es);
    }
  }

  lemma {:induction false} MapWithout(es: seq<Entry>, i: nat)
    requires i < |es| && forall m :: 0 <= m < |es| && m != i ==> es[m].key != es[i].key
    ensures MapOf(es[..i] + es[i + 1..]) == MapOf(es) - {es[i].key}
  {
    hide MapOf;
    var a, e, b := es[..i], es[i], es[i + 1..];
    assert es == a + [e] + b;
    MapOfAround(a, e, b);
    MapOfAppend(a, b);
    MapOfMisses(a, e.key);
    MapOfMisses(b, e.key);
    RemoveAdded(MapOf(a) + MapOf(b), e.key, e.value);
  }

  lemma {:induction false} DropSorted(es: seq<Entry>, k: bytes)
    requires SortedEntries(es)
    ensures SortedEntries(DropEntry(es, k))
  {
    hide Rank, Position;
  }

  lemma RemoveAdded(m: map<bytes, bytes>, k: bytes, v: bytes)
    requires k !in m
    ensures m[k := v] - {k} == m
  {
  }

  /** A put keeps what lies before the key's position, then the entry, then what lies after. */
  lemma {:induction false} PutEntryShape(es: seq<Entry>, k: bytes, v: bytes)
    ensures var i := Position(es, k);
            var j := if i < |es| && es[i].key == k then i + 1 else i;
            PutEntry(es, k, v) == es[..i] + [Entry(k, v)] + es[j..]
  {
    hide Rank, Position;
  }

  lemma {:induction false} PutEntrySorted(es: seq<Entry>, k: bytes, v: bytes, lo: real, hi: real)
    requires SortedEntries(es) && Within(es, lo, hi) && lo <= Rank(k) < hi
    ensures SortedEntries(PutEntry(es, k, v)) && Within(PutEntry(es, k, v), lo, hi)
    ensures |es| <= |PutEntry(es, k, v)| <= |es| + 1
  {
    hide Rank, Position, PutEntry, SortedEntries, Within;
    var i := Position(es, k);
    var j := if i < |es| && es[i].key == k then i + 1 else i;
    PutEntryShape(es, k, v);
    PositionApart(es, k);
    SplicedSorted(es, i, j, Entry(k, v));
    SplicedWithin(es, i, j, Entry(k, v), lo, hi);
  }

  /** Every key before the position is below the key, every key behind it above. */
  lemma {:induction false} PositionApart(es: seq<Entry>, k: bytes)
    requires SortedEntries(es)
    ensures var i := Position(es, k);
            && (forall m :: 0 <= m < i ==> Rank(es[m].key) < Rank(k))
            && (forall m :: i <= m < |es| && es[m].key != k ==> Rank(k) < Rank(es[m].key))
            && (forall m :: i < m < |es| ==> es[m].key != k)
  {
    hide Rank, Position;
    var i := Position(es, k);
    forall m | i <= m < |es| && es[m].key != k ensures Rank(k) < Rank(es[m].key) { CompareIsRankOrder(es[m].key, k); }
  }

  lemma {:induction false} SplicedSorted(es: seq<Entry>, i: nat, j: nat, e: Entry)
    requires SortedEntries(es) && i <= j <= |es| && j <= i + 1
    requires forall m :: 0 <= m < i ==> Rank(es[m].key) < Rank(e.key)
    requires forall m :: j <= m < |es| ==> Rank(e.key) < Rank(es[m].key)
    ensures SortedEntries(es[..i] + [e] + es[j..])
  {
    hide Rank;
    var r := es[..i] + [e] + es[j..];
    assert forall m :: 0 <= m < |r| ==> r[m] == if m < i then es[m] else if m == i then e else es[m - 1 + j - i];
  }

  lemma {:induction false} SplicedWithin(es: seq<Entry>, i: nat, j: nat, e: Entry, lo: real, hi: real)
    requires Within(es, lo, hi) && i <= j <= |es| && lo <= Rank(e.key) < hi
    ensures Within(es[..i] + [e] + es[j..], lo, hi)
  {
    hide Rank;
  }

  datatype Op = Putting(key: bytes, value: bytes) | Deleting(key: bytes)

  /** What a run of puts and deletes leaves in the sorted list of a tree. */
  ghost function ListAfter(es: seq<Entry>, ops: seq<Op>): seq<Entry>
  {
    if ops == [] then es
    else
      var before := ListAfter(es, ops[..|ops| - 1]);
      match ops[|ops| - 1]
      case Putting(k, v) => PutEntry(before, k, v)
      case Deleting(k) => DropEntry(before, k)
  }

  /** What the same run does to a map. */
  ghost function MapAfter(m: map<bytes, bytes>, ops: seq<Op>): map<bytes, bytes>
  {
    if ops == [] then m
    else
      var before := MapAfter(m, ops[..|ops| - 1]);
      match ops[|ops| - 1]
      case Putting(k, v) => before[k := v]
      case Deleting(k) => before - {k}
  }

  /** After every run of puts and deletes the sorted list stays sorted and stands for the map. */
  lemma {:induction false} RunRefinesMap(es: seq<Entry>, ops: seq<Op>)
    requires SortedEntries(es)
    ensures SortedEntries(ListAfter(es, ops))
    ensures MapOf(ListAfter(es, ops)) == MapAfter(MapOf(es), ops)
  {
    hide Rank, MapOf, SortedEntries, PutEntry, DropEntry;
    if ops != [] {
      RunRefinesMap(es, ops[..|ops| - 1]);
      var before := ListAfter(es, ops[..|ops| - 1]);
      match ops[|ops| - 1]
      case Putting(k, v) =>
        WithinAll(before);
        PutEntrySorted(before, k, v, 0.0, 1.0);
        MapOfPut(before, k, v);
      case Deleting(k) => MapOfDrop(before, k);
    }
  }

  lemma WithinAll(es: seq<Entry>)
    ensures Within(es, 0.0, 1.0)
  {
  }

  lemma {:induction false} PositionAppend(a: seq<Entry>, es: seq<Entry>, b: seq<Entry>, k: bytes)
    requires forall i :: 0 <= i < |a| ==> Rank(a[i].key) < Rank(k)
    requires forall i :: 0 <= i < |b| ==> Rank(k) < Rank(b[i].key)
    ensures Position(a + es + b, k) == |a| + Position(es, k)
  {
    hide Rank;
    var all, p := a + es + b, Position(es, k);
    assert forall j :: 0 <= j < |a| ==> all[j] == a[j];
    assert forall j :: 0 <= j < |es| ==> all[|a| + j] == es[j];
    assert |a| + p < |all| ==> Rank(k) <= Rank(all[|a| + p].key);
  }

  // ------------------------------------------------------------- the shape

  ghost function Zip(keys: seq<bytes>, values: seq<bytes>): seq<Entry>
  {
    seq(if |keys| <= |values| then |keys| else |values|,
        i requires 0 <= i < |keys| && i < |values| => Entry(keys[i], values[i]))
  }

  /** The entries of a tree, leaf by leaf from left to right. */
  ghost function Entries(t: Tree): seq<Entry>
    decreases t, 1
  {
    match t
    case Leaf(keys, values) => Zip(keys, values)
    case Inner(_, kids) => Flatten(kids)
  }

  ghost function Flatten(kids: seq<Tree>): seq<Entry>
    decreases kids, 0
  {
    if kids == [] then [] else Flatten(kids[..|kids| - 1]) + Entries(kids[|kids| - 1])
  }

  ghost function LoAt(keys: seq<bytes>, i: nat, lo: real): real
    requires i <= |keys|
  {
    if i == 0 then lo else Rank(keys[i - 1])
  }

  ghost function HiAt(keys: seq<bytes>, i: nat, hi: real): real
    requires i <= |keys|
  {
    if i == |keys| then hi else Rank(keys[i])
  }

  /** What a node other than the root may hold: 16 to 32 keys in a leaf, 15 to 32 above. */
  ghost predicate SizeOk(t: Tree)
  {
    (if t.Leaf? then ORDER / 2 else ORDER / 2 - 1) <= |t.keys| <= ORDER
  }

  ghost predicate KeysOk(keys: seq<bytes>, lo: real, hi: real)
  {
    lo <= hi && Sorted(keys) && forall i :: 0 <= i < |keys| ==> lo <= Rank(keys[i]) < hi
  }

  /**
   * The tree invariant: `h` levels of internal nodes above every leaf, keys
   * strictly increasing in every node, each child's keys between the
   * separators around it, every key of the subtree in `[lo, hi)`, and every
   * node below this one properly filled.
   */
  ghost predicate Ok(t: Tree, h: nat, lo: real, hi: real)
  {
    && KeysOk(t.keys, lo, hi)
    && match t
       case Leaf(keys, values) => h == 0 && |keys| == |values|
       case Inner(keys, kids) =>
         && h > 0
         && |kids| == |keys| + 1
         && forall i :: 0 <= i < |kids| ==>
              SizeOk(kids[i]) && Ok(kids[i], h - 1, LoAt(keys, i, lo), HiAt(keys, i, hi))
  }

  lemma {:induction false} FlattenAppend(a: seq<Tree>, b: seq<Tree>)
    ensures Flatten(a + b) == Flatten(a) + Flatten(b)
    decreases |b|
  {
    hide Entries, Flatten;
    if b == [] {
      assert a + b == a;
      NoKids();
    } else {
      var n := |b| - 1;
      FlattenAppend(a, b[..n]);
      assert a + b == a + b[..n] + [b[n]] && b == b[..n] + [b[n]];
      FlattenPush(a + b[..n], b[n]);
      FlattenPush(b[..n], b[n]);
    }
  }

  lemma NoKids()
    ensures Flatten([]) == []
  {
  }

  lemma FlattenPush(kids: seq<Tree>, kid: Tree)
    ensures Flatten(kids + [kid]) == Flatten(kids) + Entries(kid)
  {
    hide Entries;
    assert (kids + [kid])[..|kids|] == kids;
  }

  /** Entries of an internal node around child `i`. */
  lemma {:induction false} FlattenAround(kids: seq<Tree>, i: nat)
    requires i < |kids|
    ensures Flatten(kids) == Flatten(kids[..i]) + Entries(kids[i]) + Flatten(kids[i + 1..])
  {
    assert kids == kids[..i + 1] + kids[i + 1..];
    FlattenAppend(kids[..i + 1], kids[i + 1..]);
    assert kids[..i + 1][..i] == kids[..i];
  }

  /** The entries of a well-formed tree are strictly increasing and in its bounds. */
  lemma {:induction false} EntriesOk(t: Tree, h: nat, lo: real, hi: real)
    requires Ok(t, h, lo, hi)
    ensures SortedEntries(Entries(t)) && Within(Entries(t), lo, hi)
    decreases h, 1, 0
  {
    if t.Inner? {
      KidsOk(t, h, lo, hi, |t.kids|);
      assert t.kids[..|t.kids|] == t.kids;
    }
  }

  /** The first `i` children hold increasing entries below the separator after them. */
  lemma {:induction false} KidsOk(t: Tree, h: nat, lo: real, hi: real, i: nat)
    requires Ok(t, h, lo, hi) && t.Inner? && i <= |t.kids|
    ensures SortedEntries(Flatten(t.kids[..i]))
    ensures Within(Flatten(t.kids[..i]), lo, if i == 0 then lo else HiAt(t.keys, i - 1, hi))
    decreases h, 0, i
  {
    hide Rank;
    if i > 0 {
      KidsOk(t, h, lo, hi, i - 1);
      EntriesOk(t.kids[i - 1], h - 1, LoAt(t.keys, i - 1, lo), HiAt(t.keys, i - 1, hi));
      assert t.kids[..i][..i - 1] == t.kids[..i - 1];
      SortedJoin(Flatten(t.kids[..i - 1]), Entries(t.kids[i - 1]), lo, LoAt(t.keys, i - 1, lo), HiAt(t.keys, i - 1, hi));
    }
  }

  lemma {:induction false} SortedJoin(a: seq<Entry>, b: seq<Entry>, lo: real, mid: real, hi: real)
    requires lo <= mid <= hi
    requires SortedEntries(a) && SortedEntries(b) && Within(a, lo, mid) && Within(b, mid, hi)
    ensures SortedEntries(a + b) && Within(a + b, lo, hi)
  {
    hide Rank;
  }

  lemma {:induction false} WithinAppend(a: seq<Entry>, b: seq<Entry>, lo: real, mid: real, hi: real)
    requires lo <= mid <= hi && Within(a, lo, mid) && Within(b, mid, hi)
    ensures Within(a + b, lo, hi)
  {
    hide Rank;
  }

  /** The children after `i` hold keys at or above the separator before them. */
  lemma {:induction false} SuffixOk(t: Tree, h: nat, lo: real, hi: real, i: nat)
    requires Ok(t, h, lo, hi) && t.Inner? && i <= |t.kids|
    ensures i < |t.kids| ==> Within(Flatten(t.kids[i..]), LoAt(t.keys, i, lo), hi)
    decreases |t.kids| - i
  {
    hide Rank, Entries, Flatten, Within, SortedEntries;
    if i < |t.kids| {
      SuffixOk(t, h, lo, hi, i + 1);
      EntriesOk(t.kids[i], h - 1, LoAt(t.keys, i, lo), HiAt(t.keys, i, hi));
      FlattenFirst(t.kids, i);
      if i + 1 < |t.kids| {
        WithinAppend(Entries(t.kids[i]), Flatten(t.kids[i + 1..]), LoAt(t.keys, i, lo), HiAt(t.keys, i, hi), hi);
      }
    }
  }

  lemma {:induction false} FlattenFirst(kids: seq<Tree>, i: nat)
    requires i < |kids|
    ensures Flatten(kids[i..]) == Entries(kids[i]) + Flatten(kids[i + 1..])
    ensures i + 1 == |kids| ==> Flatten(kids[i..]) == Entries(kids[i])
  {
    hide Entries;
    FlattenAround(kids[i..], 0);
    assert kids[i..][1..] == kids[i + 1..] && kids[i..][..0] == [];
    assert Flatten([]) == [];
  }

  // ------------------------------------------------------------- insertion

  /** Insertion into a leaf. */
  ghost function LeafPut(t: Tree, i: nat, k: bytes, v: bytes): Tree
    requires t.Leaf? && |t.keys| == |t.values| && i <= |t.keys|
  {
    if i < |t.keys| && t.keys[i] == k then t.(values := t.values[i := v])
    else Leaf(t.keys[..i] + [k] + t.keys[i..], t.values[..i] + [v] + t.values[i..])
  }

  lemma {:induction false} LeafPutOk(t: Tree, lo: real, hi: real, i: nat, k: bytes, v: bytes)
    requires t.Leaf? && Ok(t, 0, lo, hi) && lo <= Rank(k) < hi
    requires i <= |t.keys|
    requires forall j :: 0 <= j < i ==> Rank(t.keys[j]) < Rank(k)
    requires i < |t.keys| ==> Rank(k) <= Rank(t.keys[i])
    ensures Ok(LeafPut(t, i, k, v), 0, lo, hi)
    ensures Entries(LeafPut(t, i, k, v)) == PutEntry(Entries(t), k, v)
  {
    hide Rank, Entries, PutEntry, KeysOk;
    LeafPutEntries(t, i, k, v);
    if !(i < |t.keys| && t.keys[i] == k) {
      if i < |t.keys| { CompareIsRankOrder(t.keys[i], k); }
      LeafKeysSplice(t.keys, i, k, lo, hi);
    }
  }

  lemma {:induction false} LeafKeysSplice(keys: seq<bytes>, i: nat, k: bytes, lo: real, hi: real)
    requires KeysOk(keys, lo, hi) && i <= |keys| && lo <= Rank(k) < hi
    requires forall j :: 0 <= j < i ==> Rank(keys[j]) < Rank(k)
    requires i < |keys| ==> Rank(k) < Rank(keys[i])
    ensures KeysOk(keys[..i] + [k] + keys[i..], lo, hi)
  {
    hide Rank, KeysOk;
    KeysSplice(keys, i, k, lo, hi);
  }

  lemma {:induction false} LeafPutEntries(t: Tree, i: nat, k: bytes, v: bytes)
    requires t.Leaf? && |t.keys| == |t.values| && i <= |t.keys|
    requires forall j :: 0 <= j < i ==> Rank(t.keys[j]) < Rank(k)
    requires i < |t.keys| ==> Rank(k) <= Rank(t.keys[i])
    ensures Entries(LeafPut(t, i, k, v)) == PutEntry(Entries(t), k, v)
  {
    hide Rank, Position, PutEntry;
    var es := Entries(t);
    PutEntryShape(es, k, v);
    LeafPosition(t, i, k);
    ZipSpliced(t.keys, t.values, i, k, v);
  }

  lemma {:induction false} LeafPosition(t: Tree, i: nat, k: bytes)
    requires t.Leaf? && |t.keys| == |t.values| && i <= |t.keys|
    requires forall j :: 0 <= j < i ==> Rank(t.keys[j]) < Rank(k)
    requires i < |t.keys| ==> Rank(k) <= Rank(t.keys[i])
    ensures Position(Entries(t), k) == i
  {
    hide Rank, Position;
    var es := Entries(t);
    assert forall j :: 0 <= j < |es| ==> es[j].key == t.keys[j];
    assert i < |es| ==> Rank(k) <= Rank(es[i].key);
  }

  lemma {:induction false} ZipSpliced(keys: seq<bytes>, values: seq<bytes>, i: nat, k: bytes, v: bytes)
    requires |keys| == |values| && i <= |keys|
    ensures var es := Zip(keys, values);
            && Zip(keys[..i] + [k] + keys[i..], values[..i] + [v] + values[i..]) == es[..i] + [Entry(k, v)] + es[i..]
            && (i < |keys| && keys[i] == k ==> Zip(keys, values[i := v]) == es[..i] + [Entry(k, v)] + es[i + 1..])
  {
  }

  lemma {:induction false} KeysSplice(keys: seq<bytes>, i: nat, k: bytes, lo: real, hi: real)
    requires KeysOk(keys, lo, hi) && i <= |keys| && lo <= Rank(k) < hi
    requires i > 0 ==> Rank(keys[i - 1]) < Rank(k)
    requires i < |keys| ==> Rank(k) < Rank(keys[i])
    ensures KeysOk(keys[..i] + [k] + keys[i..], lo, hi)
  {
    hide Rank;
    var s := keys[..i] + [k] + keys[i..];
    forall a, b | 0 <= a < b < |s| ensures Rank(s[a]) < Rank(s[b]) {
      assert s[a] == if a < i then keys[a] else if a == i then k else keys[a - 1];
      assert s[b] == if b < i then keys[b] else if b == i then k else keys[b - 1];
    }
  }

  /** What `splitChild` leaves in the old node, moves to the new one and sends up. */
  ghost function SplitLeft(t: Tree): Tree
    requires Splittable(t)
  {
    match t
    case Leaf(keys, values) => Leaf(keys[..|keys| / 2], values[..|keys| / 2])
    case Inner(keys, kids) => Inner(keys[..|kids| / 2 - 1], kids[..|kids| / 2])
  }

  ghost function SplitRight(t: Tree): Tree
    requires Splittable(t)
  {
    match t
    case Leaf(keys, values) => Leaf(keys[|keys| / 2..], values[|keys| / 2..])
    case Inner(keys, kids) => Inner(keys[|kids| / 2..], kids[|kids| / 2..])
  }

  ghost function SplitKey(t: Tree): bytes
    requires Splittable(t)
  {
    if t.Leaf? then t.keys[|t.keys| / 2] else t.keys[|t.kids| / 2 - 1]
  }

  ghost predicate Splittable(t: Tree)
  {
    |t.keys| == ORDER && if t.Leaf? then |t.values| == ORDER else |t.kids| == ORDER + 1
  }

  lemma {:induction false} SplitOk(t: Tree, h: nat, lo: real, hi: real)
    requires Ok(t, h, lo, hi) && |t.keys| == ORDER
    ensures Splittable(t)
    ensures lo < Rank(SplitKey(t)) < hi
    ensures Ok(SplitLeft(t), h, lo, Rank(SplitKey(t))) && SizeOk(SplitLeft(t)) && |SplitLeft(t).keys| < ORDER
    ensures Ok(SplitRight(t), h, Rank(SplitKey(t)), hi) && SizeOk(SplitRight(t)) && |SplitRight(t).keys| < ORDER
  {
    hide Rank;
    if t.Leaf? { SplitLeafOk(t, lo, hi); } else { SplitInnerOk(t, h, lo, hi); }
  }

  lemma {:induction false} KeysCut(keys: seq<bytes>, lo: real, hi: real, c: nat)
    requires KeysOk(keys, lo, hi) && 0 < c < |keys|
    ensures lo < Rank(keys[c]) < hi
    ensures KeysOk(keys[..c], lo, Rank(keys[c])) && KeysOk(keys[c..], Rank(keys[c]), hi)
  {
    hide Rank;
    assert Rank(keys[0]) < Rank(keys[c]);
  }

  lemma {:induction false} SplitLeafOk(t: Tree, lo: real, hi: real)
    requires t.Leaf? && Ok(t, 0, lo, hi) && |t.keys| == ORDER
    ensures Splittable(t) && lo < Rank(SplitKey(t)) < hi
    ensures Ok(SplitLeft(t), 0, lo, Rank(SplitKey(t))) && SizeOk(SplitLeft(t)) && |SplitLeft(t).keys| < ORDER
    ensures Ok(SplitRight(t), 0, Rank(SplitKey(t)), hi) && SizeOk(SplitRight(t)) && |SplitRight(t).keys| < ORDER
  {
    hide Rank, KeysOk;
    KeysCut(t.keys, lo, hi, |t.keys| / 2);
  }

  lemma {:induction false} SplitInnerOk(t: Tree, h: nat, lo: real, hi: real)
    requires t.Inner? && Ok(t, h, lo, hi) && |t.keys| == ORDER
    ensures Splittable(t) && lo < Rank(SplitKey(t)) < hi
    ensures Ok(SplitLeft(t), h, lo, Rank(SplitKey(t))) && SizeOk(SplitLeft(t)) && |SplitLeft(t).keys| < ORDER
    ensures Ok(SplitRight(t), h, Rank(SplitKey(t)), hi) && SizeOk(SplitRight(t)) && |SplitRight(t).keys| < ORDER
  {
    hide Rank, Ok;
    InnerKids(t, h, lo, hi);
    var cut := |t.kids| / 2;
    KeysCut(t.keys, lo, hi, cut - 1);
    SliceOk(t, h, lo, hi, 0, cut);
    SliceOk(t, h, lo, hi, cut, |t.kids|);
    assert t.keys[0..cut - 1] == t.keys[..cut - 1] && t.kids[0..cut] == t.kids[..cut];
    assert t.keys[cut..|t.kids| - 1] == t.keys[cut..] && t.kids[cut..|t.kids|] == t.kids[cut..];
  }

  lemma InnerKids(t: Tree, h: nat, lo: real, hi: real)
    requires t.Inner? && Ok(t, h, lo, hi)
    ensures |t.kids| == |t.keys| + 1 && KeysOk(t.keys, lo, hi)
  {
  }

  /** A run of children with the separators between them is itself well formed. */
  lemma {:induction false} SliceOk(t: Tree, h: nat, lo: real, hi: real, a: nat, b: nat)
    requires Ok(t, h, lo, hi) && t.Inner? && a < b <= |t.kids|
    ensures Ok(Inner(t.keys[a..b - 1], t.kids[a..b]), h, LoAt(t.keys, a, lo), HiAt(t.keys, b - 1, hi))
  {
    hide Rank;
    var s := Inner(t.keys[a..b - 1], t.kids[a..b]);
    var l, u := LoAt(t.keys, a, lo), HiAt(t.keys, b - 1, hi);
    forall j | 0 <= j < |s.kids|
      ensures SizeOk(s.kids[j]) && Ok(s.kids[j], h - 1, LoAt(s.keys, j, l), HiAt(s.keys, j, u))
    {
      assert s.kids[j] == t.kids[a + j];
      assert LoAt(s.keys, j, l) == LoAt(t.keys, a + j, lo);
      assert HiAt(s.keys, j, u) == HiAt(t.keys, a + j, hi);
    }
  }

  lemma {:induction false} SplitEntries(t: Tree)
    requires Splittable(t)
    ensures Entries(SplitLeft(t)) + Entries(SplitRight(t)) == Entries(t)
  {
    if t.Inner? {
      FlattenAppend(t.kids[..|t.kids| / 2], t.kids[|t.kids| / 2..]);
      assert t.kids[..|t.kids| / 2] + t.kids[|t.kids| / 2..] == t.kids;
    }
  }

  ghost function SplitKid(t: Tree, i: nat): Tree
    requires t.Inner? && i <= |t.keys| && i < |t.kids| && Splittable(t.kids[i])
  {
    Inner(t.keys[..i] + [SplitKey(t.kids[i])] + t.keys[i..],
          t.kids[..i] + [SplitLeft(t.kids[i]), SplitRight(t.kids[i])] + t.kids[i + 1..])
  }

  lemma {:induction false} SplitKidKids(t: Tree, h: nat, lo: real, hi: real, i: nat, j: nat)
    requires Ok(t, h, lo, hi) && t.Inner? && i < |t.kids| && |t.kids[i].keys| == ORDER && Splittable(t.kids[i])
    requires j < |t.kids| + 1
    ensures var s := SplitKid(t, i);
            SizeOk(s.kids[j]) && Ok(s.kids[j], h - 1, LoAt(s.keys, j, lo), HiAt(s.keys, j, hi))
  {
    hide Rank, Splittable, SplitLeft, SplitRight, SplitKey;
    SplitOk(t.kids[i], h - 1, LoAt(t.keys, i, lo), HiAt(t.keys, i, hi));
    var s := SplitKid(t, i);
    if j < i {
      assert s.kids[j] == t.kids[j];
    } else if j > i + 1 {
      assert s.kids[j] == t.kids[j - 1];
    }
  }

  /** Splitting a full child changes neither the invariant nor the entries. */
  lemma {:induction false} SplitKidOk(t: Tree, h: nat, lo: real, hi: real, i: nat)
    requires Ok(t, h, lo, hi) && t.Inner? && i < |t.kids| && |t.kids[i].keys| == ORDER
    ensures Splittable(t.kids[i])
    ensures Ok(SplitKid(t, i), h, lo, hi)
    ensures Entries(SplitKid(t, i)) == Entries(t)
    ensures |SplitKid(t, i).kids[i].keys| < ORDER && |SplitKid(t, i).kids[i + 1].keys| < ORDER
  {
    hide Rank, Entries, Splittable, SplitLeft, SplitRight, SplitKey, SizeOk;
    SplitOk(t.kids[i], h - 1, LoAt(t.keys, i, lo), HiAt(t.keys, i, hi));
    SplitKidEntries(t, i);
    KeysSplice(t.keys, i, SplitKey(t.kids[i]), lo, hi);
    forall j: nat | j < |t.kids| + 1
      ensures var s := SplitKid(t, i);
              SizeOk(s.kids[j]) && Ok(s.kids[j], h - 1, LoAt(s.keys, j, lo), HiAt(s.keys, j, hi))
    {
      SplitKidKids(t, h, lo, hi, i, j);
    }
  }

  lemma {:induction false} SplitKidEntries(t: Tree, i: nat)
    requires t.Inner? && i <= |t.keys| && i < |t.kids| && Splittable(t.kids[i])
    ensures Entries(SplitKid(t, i)) == Entries(t)
  {
    SplitEntries(t.kids[i]);
    var l, r := SplitLeft(t.kids[i]), SplitRight(t.kids[i]);
    var a, b := t.kids[..i], t.kids[i + 1..];
    FlattenAround(t.kids, i);
    FlattenAppend(a + [l, r], b);
    FlattenAppend(a, [l, r]);
    FlattenAppend([l], [r]);
    assert [l] + [r] == [l, r];
    assert Flatten([l]) == Entries(l) && Flatten([r]) == Entries(r) by { assert [l][..0] == [] && [r][..0] == []; }
  }

  /** Putting into the child that the search for `k` reaches puts into the node. */
  lemma {:induction false} ReplaceKidOk(t: Tree, h: nat, lo: real, hi: real, i: nat, kid: Tree, k: bytes, v: bytes)
    requires Ok(t, h, lo, hi) && t.Inner? && i < |t.kids|
    requires LoAt(t.keys, i, lo) <= Rank(k) < HiAt(t.keys, i, hi)
    requires SizeOk(kid) && Ok(kid, h - 1, LoAt(t.keys, i, lo), HiAt(t.keys, i, hi))
    requires Entries(kid) == PutEntry(Entries(t.kids[i]), k, v)
    ensures Ok(Inner(t.keys, t.kids[i := kid]), h, lo, hi)
    ensures Entries(Inner(t.keys, t.kids[i := kid])) == PutEntry(Entries(t), k, v)
  {
    hide Rank, PutEntry;
    ReplaceKidEntries(t, h, lo, hi, i, kid, k, v);
  }

  lemma {:induction false} ReplaceKidEntries(t: Tree, h: nat, lo: real, hi: real, i: nat, kid: Tree, k: bytes, v: bytes)
    requires Ok(t, h, lo, hi) && t.Inner? && i < |t.kids|
    requires LoAt(t.keys, i, lo) <= Rank(k) < HiAt(t.keys, i, hi)
    requires Entries(kid) == PutEntry(Entries(t.kids[i]), k, v)
    ensures Flatten(t.kids[i := kid]) == PutEntry(Flatten(t.kids), k, v)
  {
    hide Rank, PutEntry, Flatten, Entries, Position;
    var a, es, b := Flatten(t.kids[..i]), Entries(t.kids[i]), Flatten(t.kids[i + 1..]);
    FlattenAround(t.kids, i);
    FlattenAround(t.kids[i := kid], i);
    assert t.kids[i := kid][..i] == t.kids[..i] && t.kids[i := kid][i + 1..] == t.kids[i + 1..];
    Surrounded(t, h, lo, hi, i);
    PutEntryAppend(a, es, b, k, v);
  }

  /** Everything left of child `i` is below its lower bound, everything right at or above its upper one. */
  lemma {:induction false} Surrounded(t: Tree, h: nat, lo: real, hi: real, i: nat)
    requires Ok(t, h, lo, hi) && t.Inner? && i < |t.kids|
    ensures Within(Flatten(t.kids[..i]), lo, LoAt(t.keys, i, lo))
    ensures Within(Flatten(t.kids[i + 1..]), HiAt(t.keys, i, hi), hi)
  {
    hide Rank;
    KidsOk(t, h, lo, hi, i);
    SuffixOk(t, h, lo, hi, i + 1);
  }

  lemma {:induction false} PutEntryAppend(a: seq<Entry>, es: seq<Entry>, b: seq<Entry>, k: bytes, v: bytes)
    requires forall i :: 0 <= i < |a| ==> Rank(a[i].key) < Rank(k)
    requires forall i :: 0 <= i < |b| ==> Rank(k) < Rank(b[i].key)
    ensures PutEntry(a + es + b, k, v) == a + PutEntry(es, k, v) + b
  {
    hide Rank, Position, PutEntry;
    PositionAppend(a, es, b, k);
    PutEntryShape(es, k, v);
    PutEntryShape(a + es + b, k, v);
    var all, p := a + es + b, Position(es, k);
    var j := if p < |es| && es[p].key == k then p + 1 else p;
    FoundInMiddle(a, es, b, p, k);
    SpliceMiddle(a, es, b, p, j, Entry(k, v));
  }

  /** Past the middle list comes a larger key, so the key is found there or nowhere. */
  lemma {:induction false} FoundInMiddle(a: seq<Entry>, es: seq<Entry>, b: seq<Entry>, p: nat, k: bytes)
    requires p <= |es| && forall i :: 0 <= i < |b| ==> Rank(k) < Rank(b[i].key)
    ensures var all := a + es + b;
            (|a| + p < |all| && all[|a| + p].key == k) <==> (p < |es| && es[p].key == k)
  {
    hide Rank;
    var all := a + es + b;
    if p < |es| { assert all[|a| + p] == es[p]; }
    else if b != [] { assert all[|a| + p] == b[0]; }
  }

  lemma {:induction false} SpliceMiddle(a: seq<Entry>, es: seq<Entry>, b: seq<Entry>, p: nat, j: nat, e: Entry)
    requires p <= j <= |es|
    ensures var all := a + es + b;
            all[..|a| + p] + [e] + all[|a| + j..] == a + (es[..p] + [e] + es[j..]) + b
  {
    var all := a + es + b;
    assert all[..|a| + p] == a + es[..p];
    assert all[|a| + j..] == es[j..] + b;
  }

  // ---------------------------------------------------- search and capacity

  /** The search for `k` may drop every child but the one it descends into. */
  lemma {:induction false} SearchKid(t: Tree, h: nat, lo: real, hi: real, i: nat, k: bytes, v: bytes)
    requires Ok(t, h, lo, hi) && t.Inner? && i < |t.kids|
    requires LoAt(t.keys, i, lo) <= Rank(k) < HiAt(t.keys, i, hi)
    ensures Entry(k, v) in Entries(t) <==> Entry(k, v) in Entries(t.kids[i])
  {
    hide Rank;
    FlattenAround(t.kids, i);
    Surrounded(t, h, lo, hi, i);
    var e := Entry(k, v);
    assert e !in Flatten(t.kids[..i]) && e !in Flatten(t.kids[i + 1..]);
  }

  ghost function Pow16(n: nat): nat
  {
    if n == 0 then 1 else 16 * Pow16(n - 1)
  }

  /** A properly filled subtree under `h` internal levels holds at least 16^(h+1) entries. */
  lemma {:induction false} SubtreeCapacity(t: Tree, h: nat, lo: real, hi: real)
    requires Ok(t, h, lo, hi) && SizeOk(t)
    ensures |Entries(t)| >= Pow16(h + 1)
    decreases h, 1, 0
  {
    hide Rank, KeysOk;
    if t.Inner? {
      hide Ok, Entries;
      InnerKids(t, h, lo, hi);
      KidsCapacity(t, h, lo, hi, |t.kids|);
      assert t.kids[..|t.kids|] == t.kids;
      AtLeastTimes(|t.kids|, 16, Pow16(h));
    } else {
      assert Pow16(1) == 16 * Pow16(0);
    }
  }

  lemma AtLeastTimes(n: nat, m: nat, x: nat)
    requires n >= m
    ensures n * x >= m * x
  {
  }

  lemma {:induction false} KidsCapacity(t: Tree, h: nat, lo: real, hi: real, i: nat)
    requires Ok(t, h, lo, hi) && t.Inner? && i <= |t.kids|
    ensures |Flatten(t.kids[..i])| >= i * Pow16(h)
    decreases h, 0, i
  {
    hide Rank, KeysOk, Pow16, Flatten, Entries;
    if i > 0 {
      KidsCapacity(t, h, lo, hi, i - 1);
      SubtreeCapacity(t.kids[i - 1], h - 1, LoAt(t.keys, i - 1, lo), HiAt(t.keys, i - 1, hi));
      FlattenNext(t.kids, i - 1);
      OneMore(i - 1, Pow16(h));
    }
  }

  lemma FlattenNext(kids: seq<Tree>, i: nat)
    requires i < |kids|
    ensures Flatten(kids[..i + 1]) == Flatten(kids[..i]) + Entries(kids[i])
  {
    hide Entries, Flatten;
    assert kids[..i + 1] == kids[..i] + [kids[i]];
    FlattenPush(kids[..i], kids[i]);
  }

  lemma OneMore(i: nat, x: nat)
    ensures (i + 1) * x == i * x + x
  {
  }

  /** What holds of a whole tree: its root has 1 to 32 keys. */
  ghost predicate RootOk(t: Tree, h: nat)
  {
    Ok(t, h, 0.0, 1.0) && 1 <= |t.keys| <= ORDER
  }

  /** A tree with `h >= 1` internal levels holds at least 2 * 16^h entries. */
  lemma {:induction false} TreeCapacity(t: Tree, h: nat)
    requires RootOk(t, h) && h >= 1
    ensures |Entries(t)| >= 2 * Pow16(h)
  {
    KidsCapacity(t, h, 0.0, 1.0, |t.kids|);
    assert t.kids[..|t.kids|] == t.kids;
    assert |t.kids| * Pow16(h) >= 2 * Pow16(h);
  }

  /** The node reached by following child numbers down from the root, if there is one. */
  ghost function NodeAt(t: Tree, path: seq<nat>): (r: seq<Tree>)
    ensures |r| <= 1
  {
    if path == [] then [t]
    else if t.Inner? && path[0] < |t.kids| then NodeAt(t.kids[path[0]], path[1..])
    else []
  }

  /**
   * Every node of a tree with `h` internal levels: it is a leaf exactly at
   * depth `h`, has at most 32 keys, and unless it is the root at least 16 as
   * a leaf and 15 as an internal node.
   */
  lemma {:induction false} EveryNodeOk(t: Tree, h: nat, lo: real, hi: real, path: seq<nat>, n: Tree)
    requires Ok(t, h, lo, hi) && NodeAt(t, path) == [n]
    ensures |path| <= h && (n.Leaf? <==> |path| == h)
    ensures path != [] ==> SizeOk(n)
    ensures Sorted(n.keys) && (n.Inner? ==> |n.kids| == |n.keys| + 1)
    decreases |path|
  {
    if path != [] {
      EveryNodeOk(t.kids[path[0]], h - 1, LoAt(t.keys, path[0], lo), HiAt(t.keys, path[0], hi), path[1..], n);
    }
  }

  lemma {:induction false} TreeBalanced(t: Tree, h: nat, path: seq<nat>, n: Tree)
    requires RootOk(t, h) && NodeAt(t, path) == [n]
    ensures n.Leaf? <==> |path| == h
    ensures 1 <= |n.keys| <= ORDER
    ensures path != [] ==> |n.keys| >= if n.Leaf? then 16 else 15
  {
    EveryNodeOk(t, h, 0.0, 1.0, path, n);
  }
}
