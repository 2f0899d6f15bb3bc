/** The heap B+Tree: nodes linked by child and next-leaf links, changed in place. */
module BTree {
  import opened Bytes
  import opened BTreeShape

  class Node {
    var leaf: bool
    var keys: seq<bytes>
    var values: seq<bytes>
    var children: seq<Node>
    var next: Node?

    ghost var repr: set<Node>   // this node and all nodes below it
    ghost var shape: Tree       // the subtree as a value
    ghost var first: Node?      // its leftmost leaf
    ghost var after: Node?      // the leaf that follows its rightmost leaf

    constructor (leaf: bool, keys: seq<bytes>, values: seq<bytes>, children: seq<Node>, next: Node?)
      ensures this.leaf == leaf && this.keys == keys && this.values == values
      ensures this.children == children && this.next == next
    {
      this.leaf, this.keys, this.values := leaf, keys, values;
      this.children, this.next := children, next;
      this.first := this;
    }

    /** The nodes below form a tree, `shape` is its value, and its leaves are chained from `first` to `after`. */
    ghost predicate Valid()
      reads this, repr
      decreases repr, 0
    {
      && this in repr
      && leaf == shape.Leaf?
      && keys == shape.keys
      && if leaf then
           values == shape.values && |keys| == |values| && first == this && after == next
         else
           Forest(children, shape.kids, repr - {this}, first, after)
    }
  }

  /**
   * Nodes `ns` are the roots of separate trees inside `region` with the values
   * `ts`, and the leaves of each are chained to the leaves of the one after it.
   */
  ghost predicate Forest(ns: seq<Node>, ts: seq<Tree>, region: set<Node>, first: Node?, after: Node?)
    reads region
    decreases region, 1
  {
    && |ns| == |ts|
    && (forall i :: 0 <= i < |ns| ==> ns[i] in region && ns[i] in ns[i].repr)
    && (forall i :: 0 <= i < |ns| ==> ns[i].repr <= region && ns[i].Valid() && ns[i].shape == ts[i])
    && (forall i, j :: 0 <= i < j < |ns| ==> ns[i].repr !! ns[j].repr)
    && (if |ns| == 0 then first == after else first == ns[0].first && after == ns[|ns| - 1].after)
    && (forall i :: 0 <= i < |ns| - 1 ==> ns[i].after == ns[i + 1].first)
  }

  ghost function Below(ns: seq<Node>): set<Node>
    reads ns
  {
    set i, x | 0 <= i < |ns| && x in ns[i].repr :: x
  }

  /** The leaf at which the trees from `c` on begin. */
  ghost function FirstFrom(ns: seq<Node>, c: nat, after: Node?): Node?
    requires c <= |ns|
    reads ns
  {
    if c == |ns| then after else ns[c].first
  }

  lemma {:induction false} BelowRegion(ns: seq<Node>, ts: seq<Tree>, region: set<Node>, first: Node?, after: Node?, a: nat, b: nat)
    requires Forest(ns, ts, region, first, after) && a <= b <= |ns|
    ensures Below(ns[a..b]) <= region
    ensures forall i :: a <= i < b ==> ns[i] in Below(ns[a..b]) && ns[i].repr <= Below(ns[a..b])
  {
    hide Node.Valid;
    forall i | a <= i < b ensures ns[i] in Below(ns[a..b]) && ns[i].repr <= Below(ns[a..b]) {
      assert ns[a..b][i - a] == ns[i];
    }
  }

  lemma {:induction false} BelowDisjoint(ns: seq<Node>, ts: seq<Tree>, region: set<Node>, first: Node?, after: Node?, c: nat)
    requires Forest(ns, ts, region, first, after) && c <= |ns|
    ensures Below(ns[..c]) !! Below(ns[c..])
  {
    hide Node.Valid;
  }

  /** A run of neighbouring trees is a forest of its own. */
  lemma {:induction false} ForestSlice(ns: seq<Node>, ts: seq<Tree>, region: set<Node>, first: Node?, after: Node?, a: nat, b: nat)
    requires Forest(ns, ts, region, first, after) && a <= b <= |ns|
    ensures Forest(ns[a..b], ts[a..b], Below(ns[a..b]), FirstFrom(ns, a, after), FirstFrom(ns, b, after))
  {
    hide Node.Valid, Below;
    BelowRegion(ns, ts, region, first, after, a, b);
    var s, u := ns[a..b], ts[a..b];
    assert forall i :: 0 <= i < |s| ==> s[i] == ns[a + i] && u[i] == ts[a + i];
    assert forall i :: 0 <= i < |s| - 1 ==> s[i].after == s[i + 1].first by {
      forall i | 0 <= i < |s| - 1 ensures s[i].after == s[i + 1].first {
        assert ns[a + i].after == ns[a + i + 1].first;
      }
    }
    if 0 < b < |ns| { assert ns[b - 1].after == ns[b - 1 + 1].first; }
  }

  /** Cutting a forest in two gives two forests in separate regions. */
  lemma {:induction false} ForestCut(ns: seq<Node>, ts: seq<Tree>, region: set<Node>, first: Node?, after: Node?, c: nat)
    requires Forest(ns, ts, region, first, after) && c <= |ns|
    ensures |ts| == |ns|
    ensures Forest(ns[..c], ts[..c], Below(ns[..c]), first, FirstFrom(ns, c, after))
    ensures Forest(ns[c..], ts[c..], Below(ns[c..]), FirstFrom(ns, c, after), after)
    ensures Below(ns[..c]) <= region && Below(ns[c..]) <= region && Below(ns[..c]) !! Below(ns[c..])
  {
    hide Node.Valid, Below;
    assert |ts| == |ns| && FirstFrom(ns, 0, after) == first;
    ForestCutPieces(ns, ts, region, first, after, c);
  }

  lemma {:induction false} ForestCutPieces(ns: seq<Node>, ts: seq<Tree>, region: set<Node>, first: Node?, after: Node?, c: nat)
    requires Forest(ns, ts, region, first, after) && c <= |ns| == |ts|
    ensures Forest(ns[..c], ts[..c], Below(ns[..c]), FirstFrom(ns, 0, after), FirstFrom(ns, c, after))
    ensures Forest(ns[c..], ts[c..], Below(ns[c..]), FirstFrom(ns, c, after), after)
    ensures Below(ns[..c]) <= region && Below(ns[c..]) <= region && Below(ns[..c]) !! Below(ns[c..])
  {
    hide Node.Valid, Forest, Below;
    assert ns[..c] == ns[0..c] && ns[c..] == ns[c..|ns|];
    assert ts[..c] == ts[0..c] && ts[c..] == ts[c..|ns|];
    ForestSlice(ns, ts, region, first, after, 0, c);
    ForestSlice(ns, ts, region, first, after, c, |ns|);
    BelowRegion(ns, ts, region, first, after, 0, c);
    BelowRegion(ns, ts, region, first, after, c, |ns|);
    BelowDisjoint(ns, ts, region, first, after, c);
  }

  /** Two forests in separate regions, chained one to the other, make one. */
  lemma {:induction false} ForestJoin(a: seq<Node>, ta: seq<Tree>, ra: set<Node>, first: Node?, mid: Node?,
                                      b: seq<Node>, tb: seq<Tree>, rb: set<Node>, after: Node?)
    requires Forest(a, ta, ra, first, mid) && Forest(b, tb, rb, mid, after) && ra !! rb
    ensures Forest(a + b, ta + tb, ra + rb, first, after)
  {
    hide Node.Valid;
    var ns := a + b;
    forall i, j | 0 <= i < j < |ns| ensures ns[i].repr !! ns[j].repr {
      if i < |a| <= j {
        assert ns[i].repr <= ra && ns[j].repr <= rb;
      }
    }
    forall i | 0 <= i < |ns| - 1 ensures ns[i].after == ns[i + 1].first {
      if i < |a| - 1 { assert ns[i] == a[i] && ns[i + 1] == a[i + 1]; }
      if i >= |a| { assert ns[i] == b[i - |a|] && ns[i + 1] == b[i - |a| + 1]; }
    }
  }

  lemma ForestOne(n: Node)
    requires n.Valid()
    ensures Forest([n], [n.shape], n.repr, n.first, n.after)
  {
  }

  /** A forest as what stands left of tree `i`, that tree, and what stands right of it. */
  lemma {:induction false} ForestAround(ns: seq<Node>, ts: seq<Tree>, region: set<Node>, first: Node?, after: Node?, i: nat)
    requires Forest(ns, ts, region, first, after) && i < |ns|
    ensures |ts| == |ns| && ns[i].Valid() && ns[i].shape == ts[i] && ns[i].repr <= region
    ensures Forest(ns[..i], ts[..i], Below(ns[..i]), first, ns[i].first) && Below(ns[..i]) <= region
    ensures Forest(ns[i + 1..], ts[i + 1..], Below(ns[i + 1..]), ns[i].after, after) && Below(ns[i + 1..]) <= region
    ensures Below(ns[..i]) !! ns[i].repr !! Below(ns[i + 1..])
  {
    hide Node.Valid;
    ForestCut(ns, ts, region, first, after, i);
    ForestCut(ns, ts, region, first, after, i + 1);
    assert ns[..i + 1][i] == ns[i] && ns[i..][0] == ns[i];
    AfterIsNext(ns, ts, region, first, after, i);
    BelowMonotone(ns, i);
  }

  lemma {:induction false} AfterIsNext(ns: seq<Node>, ts: seq<Tree>, region: set<Node>, first: Node?, after: Node?, i: nat)
    requires Forest(ns, ts, region, first, after) && i < |ns|
    ensures FirstFrom(ns, i + 1, after) == ns[i].after
  {
    hide Node.Valid;
    assert i + 1 < |ns| ==> ns[i].after == ns[i + 1].first;
  }

  lemma {:induction false} BelowMonotone(ns: seq<Node>, i: nat)
    requires i < |ns|
    ensures ns[i].repr <= Below(ns[i..]) && ns[i].repr <= Below(ns[..i + 1])
    ensures Below(ns[..i]) <= Below(ns[..i + 1]) && Below(ns[i + 1..]) <= Below(ns[i..])
  {
    assert ns[i..][0] == ns[i] && ns[..i + 1][i] == ns[i];
    assert forall j :: 0 <= j < i ==> ns[..i][j] == ns[..i + 1][j];
    assert ns[i + 1..] == ns[i..][1..];
  }

  /** Put a tree back between its neighbours. */
  lemma {:induction false} RejoinOne(a: seq<Node>, ta: seq<Tree>, ra: set<Node>, first: Node?, n: Node,
                                     b: seq<Node>, tb: seq<Tree>, rb: set<Node>, after: Node?)
    requires n.Valid() && ra !! n.repr !! rb
    requires Forest(a, ta, ra, first, n.first) && Forest(b, tb, rb, n.after, after)
    ensures Forest(a + [n] + b, ta + [n.shape] + tb, ra + n.repr + rb, first, after)
  {
    hide Node.Valid, Forest;
    ForestOne(n);
    ForestJoin(a, ta, ra, first, n.first, [n], [n.shape], n.repr, n.after);
    ForestJoin(a + [n], ta + [n.shape], ra + n.repr, first, n.after, b, tb, rb, after);
  }

  /** Put two trees in the place of one. */
  lemma {:induction false} RejoinTwo(a: seq<Node>, ta: seq<Tree>, ra: set<Node>, first: Node?, l: Node, r: Node,
                                     b: seq<Node>, tb: seq<Tree>, rb: set<Node>, after: Node?)
    requires l.Valid() && r.Valid() && l.after == r.first && ra !! l.repr !! r.repr !! rb
    requires Forest(a, ta, ra, first, l.first) && Forest(b, tb, rb, r.after, after)
    ensures Forest(a + [l, r] + b, ta + [l.shape, r.shape] + tb, ra + l.repr + r.repr + rb, first, after)
  {
    hide Node.Valid, Forest;
    ForestOne(l);
    ForestJoin(a, ta, ra, first, l.first, [l], [l.shape], l.repr, l.after);
    RejoinOne(a + [l], ta + [l.shape], ra + l.repr, first, r, b, tb, rb, after);
    assert a + [l] + [r] + b == a + [l, r] + b;
    assert ta + [l.shape] + [r.shape] + tb == ta + [l.shape, r.shape] + tb;
  }

  lemma OpenInner(n: Node)
    requires n.Valid() && !n.leaf
    ensures n in n.repr && n.shape.Inner? && n.keys == n.shape.keys
    ensures Forest(n.children, n.shape.kids, n.repr - {n}, n.first, n.after)
    ensures |n.children| == |n.shape.kids|
  {
  }

  lemma CloseInner(n: Node, region: set<Node>)
    requires !n.leaf && n.shape.Inner? && n.keys == n.shape.keys
    requires n !in region && n.repr == region + {n}
    requires Forest(n.children, n.shape.kids, region, n.first, n.after)
    ensures n.Valid()
  {
    assert n.repr - {n} == region;
  }

  /** First child whose separator lies above the key. */
  method ChildIndex(keys: seq<bytes>, key: bytes) returns (i: nat)
    ensures i <= |keys|
    ensures forall j :: 0 <= j < i ==> Rank(keys[j]) <= Rank(key)
    ensures i < |keys| ==> Rank(key) < Rank(keys[i])
  {
    hide Rank;
    i := 0;
    while i < |keys| && Compare(key, keys[i]) >= 0
      invariant i <= |keys|
      invariant forall j :: 0 <= j < i ==> Rank(keys[j]) <= Rank(key)
    {
      CompareIsRankOrder(key, keys[i]);
      i := i + 1;
    }
    if i < |keys| { CompareIsRankOrder(key, keys[i]); }
  }

  /** Binary search for the first key at or above the given one. */
  method KeyIndex(keys: seq<bytes>, key: bytes) returns (lo: nat)
    requires Sorted(keys)
    ensures lo <= |keys|
    ensures forall j :: 0 <= j < lo ==> Rank(keys[j]) < Rank(key)
    ensures lo < |keys| ==> Rank(key) <= Rank(keys[lo])
  {
    hide Rank;
    lo := 0;
    var hi := |keys|;
    while lo < hi
      invariant lo <= hi <= |keys|
      invariant forall j :: 0 <= j < lo ==> Rank(keys[j]) < Rank(key)
      invariant hi < |keys| ==> Rank(key) <= Rank(keys[hi])
    {
      var m := (lo + hi) / 2;
      CompareIsRankOrder(keys[m], key);
      if Compare(keys[m], key) < 0 {
        lo := m + 1;
      } else {
        hi := m;
      }
    }
  }

  /** Move the upper half of full leaf `left` to a new leaf linked in right after it. */
  method SplitLeaf(left: Node) returns (right: Node, sep: bytes)
    requires left.Valid() && left.leaf && Splittable(left.shape)
    modifies left
    ensures left.Valid() && right.Valid() && left.repr == {left} && right.repr == {right} && fresh(right)
    ensures sep == SplitKey(old(left.shape))
    ensures left.shape == SplitLeft(old(left.shape)) && right.shape == SplitRight(old(left.shape))
    ensures left.first == old(left.first) && left.after == right.first && right.after == old(left.after)
  {
    var mid := |left.keys| / 2;
    right := new Node(true, left.keys[mid..], left.values[mid..], [], left.next);
    sep := right.keys[0];
    left.next := right;
    ghost var t := left.shape;
    left.keys, left.values := left.keys[..mid], left.values[..mid];
    left.repr, left.shape, left.after := {left}, SplitLeft(t), right;
    right.repr, right.shape, right.first, right.after := {right}, SplitRight(t), right, right.next;
  }

  /** Move the upper half of full internal node `left` to a new node. */
  lemma SplitShapes(t: Tree)
    requires t.Inner? && Splittable(t)
    ensures var cut := |t.kids| / 2;
            && 0 < cut <= |t.keys| && SplitKey(t) == t.keys[cut - 1]
            && SplitLeft(t) == Inner(t.keys[..cut - 1], t.kids[..cut]) && SplitRight(t) == Inner(t.keys[cut..], t.kids[cut..])
  {
  }

  method SplitInner(left: Node) returns (right: Node, sep: bytes)
    requires left.Valid() && !left.leaf && Splittable(left.shape)
    modifies left
    ensures left.Valid() && right.Valid()
    ensures left.repr <= old(left.repr) && left.repr !! right.repr
    ensures right.repr <= old(left.repr) + {right} && fresh(right)
    ensures sep == SplitKey(old(left.shape))
    ensures left.shape == SplitLeft(old(left.shape)) && right.shape == SplitRight(old(left.shape))
    ensures left.first == old(left.first) && left.after == right.first && right.after == old(left.after)
  {
    hide Node.Valid, Forest, Below, SplitLeft, SplitRight, SplitKey;
    OpenInner(left);
    SplitShapes(left.shape);
    var cut := |left.children| / 2;
    sep := left.keys[cut - 1];
    ghost var kids, t, region := left.children, left.shape, left.repr - {left};
    ForestCut(kids, t.kids, region, left.first, left.after, cut);
    ghost var lower, upper := Below(kids[..cut]), Below(kids[cut..]);
    right := new Node(false, left.keys[cut..], [], left.children[cut..], null);
    right.repr, right.shape := {right} + upper, SplitRight(t);
    right.first, right.after := FirstFrom(kids, cut, left.after), left.after;
    left.children := left.children[..cut];
    left.keys := left.keys[..cut - 1];
    left.repr, left.shape, left.after := {left} + lower, SplitLeft(t), right.first;
    CloseInner(left, lower);
    CloseInner(right, upper);
  }

  method SplitNode(left: Node) returns (right: Node, sep: bytes)
    requires left.Valid() && Splittable(left.shape)
    modifies left
    ensures left.Valid() && right.Valid() && fresh(right)
    ensures left.repr <= old(left.repr) && left.repr !! right.repr && right.repr <= old(left.repr) + {right}
    ensures sep == SplitKey(old(left.shape))
    ensures left.shape == SplitLeft(old(left.shape)) && right.shape == SplitRight(old(left.shape))
    ensures left.first == old(left.first) && left.after == right.first && right.after == old(left.after)
  {
    if left.leaf {
      right, sep := SplitLeaf(left);
    } else {
      right, sep := SplitInner(left);
    }
  }

  /** Split full child `i` in two around a separator that moves up into the parent. */
  method SplitChild(parent: Node, i: nat)
    requires parent.Valid() && !parent.leaf
    requires i <= |parent.keys| && i < |parent.children| == |parent.shape.kids| && Splittable(parent.shape.kids[i])
    modifies parent.repr
    ensures parent.Valid() && !parent.leaf && fresh(parent.repr - old(parent.repr))
    ensures parent.shape == SplitKid(old(parent.shape), i)
    ensures parent.first == old(parent.first) && parent.after == old(parent.after)
  {
    hide Node.Valid, Forest, Below;
    OpenInner(parent);
    ghost var ns, ts, region := parent.children, parent.shape.kids, parent.repr - {parent};
    ForestAround(ns, ts, region, parent.first, parent.after, i);
    var left := parent.children[i];
    ghost var ra, rb, t := Below(ns[..i]), Below(ns[i + 1..]), left.shape;
    var right, sep := SplitNode(left);
    parent.keys := parent.keys[..i] + [sep] + parent.keys[i..];
    parent.children := parent.children[..i] + [left, right] + parent.children[i + 1..];
    RejoinTwo(ns[..i], ts[..i], ra, parent.first, left, right, ns[i + 1..], ts[i + 1..], rb, parent.after);
    region := ra + left.repr + right.repr + rb;
    parent.repr, parent.shape := region + {parent}, SplitKid(parent.shape, i);
    CloseInner(parent, region);
  }

  /** Insert into a subtree whose root has room, splitting full children on the way down. */
  method InsertNonFull(n: Node, key: bytes, value: bytes, ghost h: nat, ghost lo: real, ghost hi: real)
    requires n.Valid() && Ok(n.shape, h, lo, hi) && |n.keys| < ORDER
    requires lo <= Rank(key) < hi
    modifies n.repr
    ensures n.Valid() && fresh(n.repr - old(n.repr))
    ensures n.first == old(n.first) && n.after == old(n.after)
    ensures Ok(n.shape, h, lo, hi) && Entries(n.shape) == PutEntry(old(Entries(n.shape)), key, value)
    ensures n.shape.Leaf? == old(n.shape.Leaf?) && old(|n.shape.keys|) <= |n.shape.keys| <= old(|n.shape.keys|) + 1
    decreases h, 1
  {
    hide Node.Valid, Forest, Below, Rank, PutEntry, Entries, Ok;
    LeafMeansNoLevels(n, h, lo, hi);
    if n.leaf {
      InsertIntoLeaf(n, key, value, lo, hi);
    } else {
      var i := RoomyChild(n, key, h, lo, hi);
      InsertIntoChild(n, i, key, value, h, lo, hi);
    }
  }

  lemma LeafMeansNoLevels(n: Node, h: nat, lo: real, hi: real)
    requires n.Valid() && Ok(n.shape, h, lo, hi)
    ensures (n.leaf <==> h == 0) && n.leaf == n.shape.Leaf? && n in n.repr && n.keys == n.shape.keys
  {
  }

  lemma OkKids(t: Tree, h: nat, lo: real, hi: real)
    requires Ok(t, h, lo, hi) && t.Inner?
    ensures |t.kids| == |t.keys| + 1
    ensures forall i :: 0 <= i < |t.kids| ==> |t.kids[i].keys| <= ORDER
  {
    hide Rank;
  }

  lemma KidOk(t: Tree, h: nat, lo: real, hi: real, i: nat)
    requires Ok(t, h, lo, hi) && t.Inner? && i < |t.kids|
    ensures h > 0 && |t.kids| == |t.keys| + 1
    ensures SizeOk(t.kids[i]) && Ok(t.kids[i], h - 1, LoAt(t.keys, i, lo), HiAt(t.keys, i, hi))
  {
    hide Rank;
  }

  /** Splitting child `i` puts the separator between the two halves' bounds. */
  lemma {:induction false} BesideSeparator(t: Tree, i: nat, lo: real, hi: real)
    requires t.Inner? && |t.kids| == |t.keys| + 1 && i < |t.kids| && Splittable(t.kids[i])
    ensures var keys := SplitKid(t, i).keys;
            && |keys| == |t.keys| + 1 && keys[i] == SplitKey(t.kids[i])
            && LoAt(keys, i, lo) == LoAt(t.keys, i, lo) && HiAt(keys, i, hi) == Rank(keys[i])
            && LoAt(keys, i + 1, lo) == Rank(keys[i]) && HiAt(keys, i + 1, hi) == HiAt(t.keys, i, hi)
  {
    hide Rank, SplitKey, SplitLeft, SplitRight;
  }

  /** The child to descend into for `key`, split first if it is full. */
  method RoomyChild(n: Node, key: bytes, ghost h: nat, ghost lo: real, ghost hi: real) returns (i: nat)
    requires n.Valid() && !n.leaf && Ok(n.shape, h, lo, hi)
    requires lo <= Rank(key) < hi
    modifies n.repr
    ensures n.Valid() && !n.leaf && fresh(n.repr - old(n.repr))
    ensures n.first == old(n.first) && n.after == old(n.after)
    ensures Ok(n.shape, h, lo, hi) && Entries(n.shape) == old(Entries(n.shape))
    ensures n.shape.Inner? && old(|n.shape.keys|) <= |n.shape.keys| <= old(|n.shape.keys|) + 1
    ensures i < |n.children| == |n.shape.kids| && |n.shape.kids[i].keys| < ORDER
    ensures LoAt(n.shape.keys, i, lo) <= Rank(key) < HiAt(n.shape.keys, i, hi)
  {
    hide Node.Valid, Forest, Below, Rank, Entries, Ok, SplitLeft, SplitRight, SplitKey, Splittable;
    OpenInner(n);
    OkKids(n.shape, h, lo, hi);
    i := ChildIndex(n.keys, key);
    ForestAround(n.children, n.shape.kids, n.repr - {n}, n.first, n.after, i);
    KeysAgree(n.children[i]);
    if |n.children[i].keys| == ORDER {
      SplitKidOk(n.shape, h, lo, hi, i);
      BesideSeparator(n.shape, i, lo, hi);
      SplitChild(n, i);
      OpenInner(n);
      CompareIsRankOrder(key, n.keys[i]);
      if Compare(key, n.keys[i]) >= 0 {
        i := i + 1;
      }
    }
  }

  lemma KeysAgree(n: Node)
    requires n.Valid()
    ensures n.keys == n.shape.keys && n.leaf == n.shape.Leaf?
  {
  }

  method InsertIntoLeaf(n: Node, key: bytes, value: bytes, ghost lo: real, ghost hi: real)
    requires n.Valid() && n.leaf && Ok(n.shape, 0, lo, hi)
    requires lo <= Rank(key) < hi
    modifies n
    ensures n.Valid() && n.repr == old(n.repr)
    ensures n.first == old(n.first) && n.after == old(n.after)
    ensures Ok(n.shape, 0, lo, hi) && Entries(n.shape) == PutEntry(old(Entries(n.shape)), key, value)
    ensures n.shape.Leaf? && old(|n.shape.keys|) <= |n.shape.keys| <= old(|n.shape.keys|) + 1
  {
    hide Rank, PutEntry, Entries;
    var i := KeyIndex(n.keys, key);
    LeafPutOk(n.shape, lo, hi, i, key, value);
    n.shape := LeafPut(n.shape, i, key, value);
    if i < |n.keys| && n.keys[i] == key {
      n.values := n.values[i := value];
    } else {
      n.keys := n.keys[..i] + [key] + n.keys[i..];
      n.values := n.values[..i] + [value] + n.values[i..];
    }
  }

  method InsertIntoChild(n: Node, i: nat, key: bytes, value: bytes, ghost h: nat, ghost lo: real, ghost hi: real)
    requires n.Valid() && !n.leaf && Ok(n.shape, h, lo, hi)
    requires i < |n.children| == |n.shape.kids| && |n.shape.kids[i].keys| < ORDER
    requires LoAt(n.shape.keys, i, lo) <= Rank(key) < HiAt(n.shape.keys, i, hi)
    modifies n.repr
    ensures n.Valid() && fresh(n.repr - old(n.repr))
    ensures n.first == old(n.first) && n.after == old(n.after)
    ensures Ok(n.shape, h, lo, hi) && Entries(n.shape) == PutEntry(old(Entries(n.shape)), key, value)
    ensures n.shape.Inner? && n.shape.keys == old(n.shape.keys)
    decreases h, 0
  {
    hide Node.Valid, Forest, Below, Rank, PutEntry, Entries, Ok, LoAt, HiAt;
    OpenInner(n);
    KidOk(n.shape, h, lo, hi, i);
    ghost var ns, t, region := n.children, n.shape, n.repr - {n};
    ForestAround(ns, t.kids, region, n.first, n.after, i);
    var c := n.children[i];
    ghost var ra, rb := Below(ns[..i]), Below(ns[i + 1..]);
    KeysAgree(c);
    InsertNonFull(c, key, value, h - 1, LoAt(t.keys, i, lo), HiAt(t.keys, i, hi));
    ReplaceKidOk(t, h, lo, hi, i, c.shape, key, value);
    RejoinOne(ns[..i], t.kids[..i], ra, n.first, c, ns[i + 1..], t.kids[i + 1..], rb, n.after);
    region := ra + c.repr + rb;
    assert ns == ns[..i] + [c] + ns[i + 1..];
    n.repr, n.shape := region + {n}, Inner(t.keys, t.kids[i := c.shape]);
    assert n.shape.kids == t.kids[..i] + [c.shape] + t.kids[i + 1..];
    CloseInner(n, region);
  }

  // ------------------------------------------------------------- leaf chain

  /** The leaves `ls` are linked in order and the last one points at `after`. */
  ghost predicate Chained(ls: seq<Node>, after: Node?)
    reads ls
  {
    && (forall i :: 0 <= i < |ls| ==> ls[i].leaf && |ls[i].keys| == |ls[i].values|)
    && (forall i :: 0 <= i < |ls| - 1 ==> ls[i].next == ls[i + 1])
    && (|ls| > 0 ==> ls[|ls| - 1].next == after)
  }

  ghost function ChainEntries(ls: seq<Node>): seq<Entry>
    reads ls
  {
    if ls == [] then [] else ChainEntries(ls[..|ls| - 1]) + Zip(ls[|ls| - 1].keys, ls[|ls| - 1].values)
  }

  /** The leaves of a tree from left to right. */
  ghost function Leaves(n: Node): (ls: seq<Node>)
    requires n.Valid()
    reads n, n.repr
    decreases n.repr, 0
  {
    if n.leaf then [n] else LeavesOf(n.children, n.shape.kids, n.repr - {n}, n.first, n.after)
  }

  ghost function LeavesOf(ns: seq<Node>, ts: seq<Tree>, region: set<Node>, first: Node?, after: Node?): (ls: seq<Node>)
    requires Forest(ns, ts, region, first, after)
    reads region
    decreases region, 1, |ns|
  {
    if ns == [] then [] else
      (ForestDropLast(ns, ts, region, first, after);
       LeavesOf(ns[..|ns| - 1], ts[..|ns| - 1], region, first, ns[|ns| - 1].first) + Leaves(ns[|ns| - 1]))
  }

  lemma {:induction false} ForestDropLast(ns: seq<Node>, ts: seq<Tree>, region: set<Node>, first: Node?, after: Node?)
    requires Forest(ns, ts, region, first, after) && ns != []
    ensures |ts| == |ns| && Forest(ns[..|ns| - 1], ts[..|ns| - 1], region, first, ns[|ns| - 1].first)
    ensures ns[|ns| - 1].Valid() && ns[|ns| - 1].after == after && ns[|ns| - 1].shape == ts[|ns| - 1]
    ensures ns[|ns| - 1] in region && ns[|ns| - 1].repr <= region
  {
    hide Node.Valid;
    var m := |ns| - 1;
    if m > 0 { assert ns[m - 1].after == ns[m - 1 + 1].first; }
  }

  lemma {:induction false} ChainEntriesAppend(a: seq<Node>, b: seq<Node>)
    ensures ChainEntries(a + b) == ChainEntries(a) + ChainEntries(b)
    decreases |b|
  {
    if b == [] {
      assert a + b == a;
    } else {
      ChainEntriesAppend(a, b[..|b| - 1]);
      assert (a + b)[..|a + b| - 1] == a + b[..|b| - 1];
    }
  }

  ghost function Head(ls: seq<Node>, after: Node?): Node?
  {
    if ls == [] then after else ls[0]
  }

  lemma {:induction false} ChainedJoin(a: seq<Node>, b: seq<Node>, after: Node?)
    requires Chained(a, Head(b, after)) && Chained(b, after)
    ensures Chained(a + b, after)
    ensures Head(a, Head(b, after)) == Head(a + b, after)
  {
    var s := a + b;
    forall i | 0 <= i < |s| - 1 ensures s[i].next == s[i + 1] {
      if i < |a| - 1 { assert s[i] == a[i] && s[i + 1] == a[i + 1]; }
      if i >= |a| { assert s[i] == b[i - |a|] && s[i + 1] == b[i - |a| + 1]; }
    }
  }

  /** The leaves of a tree are chained left to right and hold exactly its entries. */
  lemma {:induction false} LeavesChained(n: Node)
    requires n.Valid()
    ensures Chained(Leaves(n), n.after) && n.first == Head(Leaves(n), n.after)
    ensures ChainEntries(Leaves(n)) == Entries(n.shape)
    decreases n.repr, 0
  {
    if n.leaf {
      assert [n][..0] == [];
    } else {
      hide Forest, ChainEntries, Chained;
      LeavesOfChained(n.children, n.shape.kids, n.repr - {n}, n.first, n.after);
    }
  }

  lemma {:induction false} LeavesOfChained(ns: seq<Node>, ts: seq<Tree>, region: set<Node>, first: Node?, after: Node?)
    requires Forest(ns, ts, region, first, after)
    ensures Chained(LeavesOf(ns, ts, region, first, after), after)
    ensures first == Head(LeavesOf(ns, ts, region, first, after), after)
    ensures ChainEntries(LeavesOf(ns, ts, region, first, after)) == Flatten(ts)
    decreases region, 1, |ns|
  {
    hide Node.Valid;
    if ns == [] {
      assert ts == [];
    } else {
      hide ChainEntries, Chained;
      var m := |ns| - 1;
      ForestDropLast(ns, ts, region, first, after);
      LeavesOfChained(ns[..m], ts[..m], region, first, ns[m].first);
      LeavesChained(ns[m]);
      var a, b := LeavesOf(ns[..m], ts[..m], region, first, ns[m].first), Leaves(ns[m]);
      ChainedJoin(a, b, after);
      ChainEntriesAppend(a, b);
    }
  }

  // --------------------------------------------------------------- the tree

  lemma NothingMapped()
    ensures MapOf([]) == map[]
  {
  }

  /** Walk the leaf chain from its first leaf. */
  method ReadChain(first: Node, ghost ls: seq<Node>) returns (out: seq<Entry>)
    requires Chained(ls, null) && Head(ls, null) == first
    ensures out == ChainEntries(ls)
  {
    hide Node.Valid, Rank, Chained, ChainEntries, Zip;
    out := [];
    var n: Node? := first;
    ghost var c := 0;
    ChainStart(ls);
    while n != null
      invariant c <= |ls| && n == if c < |ls| then ls[c] else null
      invariant out == ChainEntries(ls[..c])
      decreases |ls| - c
    {
      ChainStep(ls, c);
      var es := ReadLeaf(n);
      out := out + es;
      n, c := n.next, c + 1;
    }
    assert ls[..c] == ls;
  }

  /** Go down from a node to the leaf where the key belongs. */
  method FindLeaf(top: Node, key: bytes, ghost h0: nat) returns (n: Node)
    requires top.Valid() && Ok(top.shape, h0, 0.0, 1.0)
    ensures n.Valid() && n.leaf && exists lo, hi :: Ok(n.shape, 0, lo, hi)
    ensures forall v :: Entry(key, v) in Entries(n.shape) <==> Entry(key, v) in Entries(top.shape)
  {
    hide Node.Valid, Forest, Rank, Entries, Ok;
    n := top;
    ghost var h, lo, hi := h0, 0.0, 1.0;
    ghost var r := Rank(key);
    LeafMeansNoLevels(n, h, lo, hi);
    while !n.leaf
      invariant n.Valid() && Ok(n.shape, h, lo, hi) && lo <= Rank(key) < hi
      invariant n.leaf <==> h == 0
      invariant forall v :: Entry(key, v) in Entries(n.shape) <==> Entry(key, v) in Entries(top.shape)
      decreases h
    {
      var i := ChildIndex(n.keys, key);
      OpenInner(n);
      Descend(n, h, lo, hi, i, key);
      h, lo, hi := h - 1, LoAt(n.shape.keys, i, lo), HiAt(n.shape.keys, i, hi);
      n := n.children[i];
      LeafMeansNoLevels(n, h, lo, hi);
    }
  }

  class BPlusTree {
    var root: Node?
    ghost var height: nat  // internal levels above the leaves

    ghost predicate Valid()
      reads this, root, if root == null then {} else root.repr
    {
      root != null ==> root.Valid() && root.after == null && RootOk(root.shape, height)
    }

    ghost function Repr(): set<Node>
      reads this, root
    {
      if root == null then {} else root.repr
    }

    /** The entries in key order. */
    ghost function List(): seq<Entry>
      reads this, root
    {
      if root == null then [] else Entries(root.shape)
    }

    /** The map the tree stands for. */
    ghost function Contents(): map<bytes, bytes>
      reads this, root
    {
      MapOf(List())
    }

    constructor ()
      ensures Valid() && root == null && List() == [] && Contents() == map[]
    {
      root := null;
    }

    lemma ListSorted()
      requires Valid()
      ensures SortedEntries(List()) && Within(List(), 0.0, 1.0)
    {
      if root != null { EntriesOk(root.shape, height, 0.0, 1.0); }
    }

    method Get(key: bytes) returns (value: bytes, found: bool)
      requires Valid()
      ensures found <==> key in Contents()
      ensures value == if found then Contents()[key] else []
    {
      hide Node.Valid, Forest, Rank, Entries, MapOf, Ok, SortedEntries, Within;
      if root == null {
        NothingMapped();
        return [], false;
      }
      var n := FindLeaf(root, key, height);
      ghost var lo: real, hi: real :| Ok(n.shape, 0, lo, hi);
      OpenLeaf(n, lo, hi);
      var i := KeyIndex(n.keys, key);
      ListSorted();
      LeafSearch(n.keys, n.values, i, key);
      MapOfMembers(List(), key);
      if i < |n.keys| && n.keys[i] == key {
        assert Entry(key, n.values[i]) in Entries(n.shape);
        return n.values[i], true;
      }
      return [], false;
    }

    method Put(key: bytes, value: bytes)
      requires Valid()
      modifies this, Repr()
      ensures Valid() && fresh(Repr() - old(Repr()))
      ensures List() == PutEntry(old(List()), key, value)
      ensures Contents() == old(Contents())[key := value]
    {
      hide Node.Valid, Forest, Rank, Entries, MapOf, Ok, SortedEntries, Within, PutEntry;
      ListSorted();
      MapOfPut(List(), key, value);
      if root == null {
        root := FirstLeaf(key, value);
        height := 0;
        return;
      }
      if |root.keys| == ORDER {
        Grow();
      }
      var r: Node := root;
      LeafMeansNoLevels(r, height, 0.0, 1.0);
      InsertNonFull(r, key, value, height, 0.0, 1.0);
    }

    /** Walk the leaf chain from the leftmost leaf. */
    method InOrder() returns (out: seq<Entry>)
      requires Valid()
      ensures out == List() && SortedEntries(out)
    {
      hide Node.Valid, Forest, Rank, Entries, MapOf, Ok, SortedEntries, Within, Chained, ChainEntries, Zip, Leaves;
      ListSorted();
      out := [];
      if root == null {
        return;
      }
      var n := LeftmostLeaf();
      LeavesChained(root);
      out := ReadChain(n, Leaves(root));
      LeavesChained(root);
    }

    /** The keys and values along the leaf chain without those of `key`. */
    method Survivors(key: bytes) returns (keys: seq<bytes>, values: seq<bytes>)
      requires Valid()
      ensures |keys| == |values| && Zip(keys, values) == DropEntry(List(), key)
    {
      hide Node.Valid, Forest, Rank, Entries, MapOf, Ok, SortedEntries, Within, Chained, ChainEntries, Zip, Keep,
           DropEntry, Leaves;
      ListSorted();
      DropFromEmpty(key);
      if root == null {
        return [], [];
      }
      ghost var ls := Leaves(root);
      LeavesChained(root);
      assert Chained(ls, null);
      var leaf: Node? := LeftmostLeaf();
      ghost var c := 0;
      keys, values := [], [];
      KeepStart(ls, key);
      while leaf != null
        invariant c <= |ls| && leaf == if c < |ls| then ls[c] else null
        invariant Chained(ls, null)
        invariant |keys| == |values| && Zip(keys, values) == Keep(ChainEntries(ls[..c]), key)
        decreases |ls| - c
      {
        ChainStep(ls, c);
        KeepAppend(ChainEntries(ls[..c]), Zip(leaf.keys, leaf.values), key);
        keys, values := ReadLeafExcept(leaf, key, keys, values);
        leaf, c := leaf.next, c + 1;
      }
      assert ls[..c] == ls;
      KeepIsDrop(List(), key);
    }

    /** Rebuild the tree from the leaf chain without `key`; false if the key is not there. */
    method Delete(key: bytes) returns (found: bool)
      requires Valid()
      modifies this
      ensures Valid() && fresh(Repr() - old(Repr()))
      ensures found <==> key in old(Contents())
      ensures List() == DropEntry(old(List()), key)
      ensures Contents() == old(Contents()) - {key}
    {
      hide Node.Valid, Forest, Rank, Entries, MapOf, Ok, SortedEntries, Within, Zip, DropEntry, PutEntry;
      ListSorted();
      MapOfDrop(List(), key);
      var _, ok := Get(key);
      if !ok {
        DropMissing(List(), key);
        return false;
      }
      var keys, values := Survivors(key);
      ghost var es := DropEntry(List(), key);
      ZipLength(keys, values);
      root := null;
      for i := 0 to |keys|
        invariant Valid() && fresh(Repr())
        invariant List() == es[..i]
      {
        PutNext(es, i, keys, values);
        Put(keys[i], values[i]);
      }
      assert es[..|keys|] == es;
      return true;
    }

    method LeftmostLeaf() returns (n: Node)
      requires Valid() && root != null
      ensures n == root.first
    {
      hide Node.Valid, Forest, Rank, Entries, Ok;
      n := root;
      ghost var h, lo, hi := height, 0.0, 1.0;
      LeafMeansNoLevels(n, h, lo, hi);
      while !n.leaf
        invariant n.Valid() && n.first == root.first && Ok(n.shape, h, lo, hi)
        invariant n.leaf <==> h == 0
        decreases h
      {
        FirstKid(n, h, lo, hi);
        h, hi := h - 1, HiAt(n.shape.keys, 0, hi);
        n := n.children[0];
        LeafMeansNoLevels(n, h, lo, hi);
      }
      LeafIsFirst(n);
    }

    /** Put a new root above a full one and split the old root under it. */
    method Grow()
      requires Valid() && root != null && |root.keys| == ORDER
      modifies this, Repr()
      ensures Valid() && fresh(Repr() - old(Repr()))
      ensures root != null && |root.keys| < ORDER && List() == old(List())
    {
      hide Node.Valid, Forest, Rank, Entries, MapOf, SortedEntries, Within;
      var top: Node := root;
      ghost var t := top.shape;
      KeysAgree(top);
      var r := new Node(false, [], [], [top], null);
      ForestOne(top);
      r.repr, r.shape, r.first, r.after := top.repr + {r}, Inner([], [t]), top.first, top.after;
      CloseInner(r, top.repr);
      NewRootOk(t, height);
      SplitKidOk(r.shape, height + 1, 0.0, 1.0, 0);
      SplitChild(r, 0);
      KeysAgree(r);
      root, height := r, height + 1;
    }
  }

  method FirstLeaf(key: bytes, value: bytes) returns (n: Node)
    ensures fresh(n) && n.Valid() && n.repr == {n} && n.after == null && RootOk(n.shape, 0)
    ensures Entries(n.shape) == PutEntry([], key, value)
  {
    n := new Node(true, [key], [value], [], null);
    n.repr, n.shape := {n}, Leaf([key], [value]);
    n.first, n.after := n, null;
  }

  lemma {:induction false} NewRootOk(t: Tree, h: nat)
    requires RootOk(t, h) && |t.keys| == ORDER
    ensures Ok(Inner([], [t]), h + 1, 0.0, 1.0)
    ensures Entries(Inner([], [t])) == Entries(t)
  {
    assert [t][..0] == [];
    assert Flatten([t]) == Flatten([]) + Entries(t);
  }

  lemma ChainStart(ls: seq<Node>)
    ensures ChainEntries(ls[..0]) == []
  {
  }

  lemma {:induction false} ChainStep(ls: seq<Node>, c: nat)
    requires Chained(ls, null) && c < |ls|
    ensures ls[c].leaf && |ls[c].keys| == |ls[c].values|
    ensures ls[c].next == if c + 1 < |ls| then ls[c + 1] else null
    ensures ChainEntries(ls[..c + 1]) == ChainEntries(ls[..c]) + Zip(ls[c].keys, ls[c].values)
  {
    hide Zip;
    assert ls[..c + 1][..c] == ls[..c] && ls[..c + 1][c] == ls[c];
    assert c + 1 < |ls| ==> ls[c].next == ls[c + 1];
  }

  /** The entries of one leaf. */
  method ReadLeaf(n: Node) returns (es: seq<Entry>)
    requires |n.keys| == |n.values|
    ensures es == Zip(n.keys, n.values)
  {
    es := [];
    var i := 0;
    while i < |n.keys|
      invariant i <= |n.keys| && es == Zip(n.keys, n.values)[..i]
    {
      es := es + [Entry(n.keys[i], n.values[i])];
      i := i + 1;
    }
  }

  /** The entries whose key is not `k`, in order. */
  ghost function Keep(es: seq<Entry>, k: bytes): seq<Entry>
  {
    if es == [] then []
    else Keep(es[..|es| - 1], k) + if es[|es| - 1].key != k then [es[|es| - 1]] else []
  }

  lemma {:induction false} KeepAppend(a: seq<Entry>, b: seq<Entry>, k: bytes)
    ensures Keep(a + b, k) == Keep(a, k) + Keep(b, k)
    decreases |b|
  {
    if b == [] {
      assert a + b == a;
    } else {
      KeepAppend(a, b[..|b| - 1], k);
      assert (a + b)[..|a + b| - 1] == a + b[..|b| - 1];
    }
  }

  lemma KeepStart(ls: seq<Node>, k: bytes)
    ensures Zip([], []) == Keep(ChainEntries(ls[..0]), k)
  {
  }

  lemma {:induction false} KeepAll(es: seq<Entry>, k: bytes)
    requires forall i :: 0 <= i < |es| ==> es[i].key != k
    ensures Keep(es, k) == es
  {
    if es != [] { KeepAll(es[..|es| - 1], k); }
  }

  lemma {:induction false} KeepIsDrop(es: seq<Entry>, k: bytes)
    requires SortedEntries(es)
    ensures Keep(es, k) == DropEntry(es, k)
  {
    hide Rank, Position, Keep;
    var i := Position(es, k);
    if i < |es| && es[i].key == k {
      var a, b := es[..i], es[i + 1..];
      KeepAll(a, k);
      KeepAll(b, k);
      KeepAppend(a + [es[i]], b, k);
      KeepAppend(a, [es[i]], k);
      KeepNone(es[i], k);
      assert es == a + [es[i]] + b;
    } else {
      if i < |es| { CompareIsRankOrder(es[i].key, k); }
      KeepAll(es, k);
    }
  }

  lemma KeepNone(e: Entry, k: bytes)
    requires e.key == k
    ensures Keep([e], k) == []
  {
    assert [e][..0] == [];
  }

  method ReadLeafExcept(n: Node, key: bytes, keys0: seq<bytes>, values0: seq<bytes>)
    returns (keys: seq<bytes>, values: seq<bytes>)
    requires |n.keys| == |n.values| && |keys0| == |values0|
    ensures |keys| == |values|
    ensures Zip(keys, values) == Zip(keys0, values0) + Keep(Zip(n.keys, n.values), key)
  {
    keys, values := keys0, values0;
    var i := 0;
    ghost var es := Zip(n.keys, n.values);
    while i < |n.keys|
      invariant i <= |n.keys| && |keys| == |values|
      invariant Zip(keys, values) == Zip(keys0, values0) + Keep(es[..i], key)
    {
      assert es[..i + 1][..i] == es[..i];
      if n.keys[i] != key {
        ZipPush(keys, values, n.keys[i], n.values[i]);
        keys, values := keys + [n.keys[i]], values + [n.values[i]];
      }
      i := i + 1;
    }
    assert es[..i] == es;
  }

  lemma ZipPush(keys: seq<bytes>, values: seq<bytes>, k: bytes, v: bytes)
    requires |keys| == |values|
    ensures Zip(keys + [k], values + [v]) == Zip(keys, values) + [Entry(k, v)]
  {
  }

  lemma ZipLength(keys: seq<bytes>, values: seq<bytes>)
    requires |keys| == |values|
    ensures |Zip(keys, values)| == |keys|
  {
  }

  lemma DropFromEmpty(k: bytes)
    ensures Zip([], []) == [] == DropEntry([], k)
  {
  }

  lemma {:induction false} DropMissing(es: seq<Entry>, k: bytes)
    requires SortedEntries(es) && k !in MapOf(es)
    ensures DropEntry(es, k) == es
  {
    hide Rank, MapOf;
    MapOfMembers(es, k);
    var i := Position(es, k);
    if i < |es| { assert es[i] == Entry(es[i].key, es[i].value); }
  }

  /** Putting the next entry of a sorted list appends it. */
  lemma {:induction false} PutNext(es: seq<Entry>, i: nat, keys: seq<bytes>, values: seq<bytes>)
    requires SortedEntries(es) && i < |es| == |keys| == |values| && Zip(keys, values) == es
    ensures PutEntry(es[..i], keys[i], values[i]) == es[..i + 1]
  {
    hide Rank;
    assert es[i] == Entry(keys[i], values[i]);
    assert Position(es[..i], keys[i]) == i;
  }

  lemma {:induction false} FirstKid(n: Node, h: nat, lo: real, hi: real)
    requires n.Valid() && !n.leaf && Ok(n.shape, h, lo, hi)
    ensures h > 0 && |n.children| > 0 && n.shape.Inner? && n.children[0].Valid() && n.children[0].first == n.first
    ensures Ok(n.children[0].shape, h - 1, lo, HiAt(n.shape.keys, 0, hi))
  {
    hide Node.Valid, Rank;
    OpenInner(n);
  }

  lemma LeafIsFirst(n: Node)
    requires n.Valid() && n.leaf
    ensures n.first == n
  {
  }

  lemma {:induction false} Descend(n: Node, h: nat, lo: real, hi: real, i: nat, key: bytes)
    requires n.Valid() && !n.leaf && Ok(n.shape, h, lo, hi) && lo <= Rank(key) < hi
    requires i <= |n.keys|
    requires forall j :: 0 <= j < i ==> Rank(n.keys[j]) <= Rank(key)
    requires i < |n.keys| ==> Rank(key) < Rank(n.keys[i])
    ensures h > 0 && i < |n.children| && i <= |n.shape.keys|
    ensures n.children[i].Valid()
    ensures Ok(n.children[i].shape, h - 1, LoAt(n.shape.keys, i, lo), HiAt(n.shape.keys, i, hi))
    ensures LoAt(n.shape.keys, i, lo) <= Rank(key) < HiAt(n.shape.keys, i, hi)
    ensures forall v :: Entry(key, v) in Entries(n.children[i].shape) <==> Entry(key, v) in Entries(n.shape)
  {
    hide Node.Valid, Forest, Rank, Entries;
    OpenInner(n);
    ForestAround(n.children, n.shape.kids, n.repr - {n}, n.first, n.after, i);
    forall v ensures Entry(key, v) in Entries(n.children[i].shape) <==> Entry(key, v) in Entries(n.shape) {
      SearchKid(n.shape, h, lo, hi, i, key, v);
    }
  }

  lemma OpenLeaf(n: Node, lo: real, hi: real)
    requires n.Valid() && n.leaf && Ok(n.shape, 0, lo, hi)
    ensures Sorted(n.keys) && |n.keys| == |n.values|
    ensures Entries(n.shape) == Zip(n.keys, n.values)
  {
  }

  lemma {:induction false} LeafSearch(keys: seq<bytes>, values: seq<bytes>, i: nat, key: bytes)
    requires Sorted(keys) && |keys| == |values| && i <= |keys|
    requires forall j :: 0 <= j < i ==> Rank(keys[j]) < Rank(key)
    requires i < |keys| ==> Rank(key) <= Rank(keys[i])
    ensures i < |keys| && keys[i] == key ==> Entry(key, values[i]) in Zip(keys, values)
    ensures !(i < |keys| && keys[i] == key) ==> forall v :: Entry(key, v) !in Zip(keys, values)
  {
    hide Rank;
    var es := Zip(keys, values);
    if i < |keys| && keys[i] == key {
      assert es[i] == Entry(key, values[i]);
    } else if i < |keys| {
      CompareIsRankOrder(keys[i], key);
    }
  }
}
