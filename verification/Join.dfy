/** The hash join of SELECT against the nested loop it stands for. */
module Join {
  import opened Common
  import opened Bytes
  import opened Codec
  import opened Conditions

  // ------------------------------------------------------------ merged rows

  /** The name a repeated column gets in the joined row. */
  function Qualified(table: string, name: Name): Name
  {
    Name(table + "." + name.text)
  }

  /** The column a qualified name is for. */
  function Base(table: string, q: Name): Option<Name>
  {
    if |table| < |q.text| && q.text[..|table| + 1] == table + "." then Some(Name(q.text[|table| + 1..])) else None
  }

  lemma BaseOfQualified(table: string, q: Name, k: Name)
    ensures Base(table, q) == Some(k) <==> q == Qualified(table, k)
  {
    var text := table + "." + k.text;
    assert text[..|table| + 1] == table + "." && text[|table| + 1..] == k.text;
    if Base(table, q) == Some(k) {
      assert q.text == q.text[..|table| + 1] + q.text[|table| + 1..];
    }
  }

  /** The value of a column of the joined row. */
  function MergedAt(table: string, a: Row, b: Row, q: Name): Option<Value>
  {
    var k := Base(table, q);
    if k.Some? && k.value in a && k.value in b then Some(b[k.value])
    else if q in a then Some(a[q])
    else if q in b then Some(b[q])
    else None
  }

  /** The left row, the right row's other columns, and its repeated columns under their qualified names. */
  function Merged(table: string, a: Row, b: Row): Row
  {
    map q | q in a.Keys + b.Keys + (set k | k in b.Keys :: Qualified(table, k)) && MergedAt(table, a, b, q).Some? ::
      MergedAt(table, a, b, q).value
  }

  lemma {:induction false} MergedIs(table: string, a: Row, b: Row, q: Name)
    ensures q in Merged(table, a, b) <==> MergedAt(table, a, b, q).Some?
    ensures q in Merged(table, a, b) ==> Merged(table, a, b)[q] == MergedAt(table, a, b, q).value
  {
    hide Base, Qualified;
    var k := Base(table, q);
    if k.Some? { BaseOfQualified(table, q, k.value); }
  }

  /** No column only on the right has the name that a repeated one gets. */
  predicate Mergeable(table: string, a: Row, b: Row)
  {
    forall k :: k in a && k in b && Qualified(table, k) in b ==> Qualified(table, k) in a
  }

  function Restrict(b: Row, done: set<Name>): Row
  {
    map k | k in b && k in done :: b[k]
  }

  /** One more column of the right row. */
  function Extend(table: string, n: Row, k: Name, v: Value): Row
  {
    if k in n then n[Qualified(table, k) := v] else n[k := v]
  }

  /** The left row extended by columns of the right row in the order they are walked. */
  function MergeInOrder(table: string, a: Row, b: Row, order: seq<Name>): Row
    requires forall i :: 0 <= i < |order| ==> order[i] in b
  {
    if order == [] then a
    else
      var n := |order| - 1;
      Extend(table, MergeInOrder(table, a, b, order[..n]), order[n], b[order[n]])
  }

  ghost predicate Walks(order: seq<Name>, names: set<Name>)
  {
    && (forall i, j :: 0 <= i < j < |order| ==> order[i] != order[j])
    && (forall k :: k in names <==> k in order)
  }

  /** The row is what walking the right row's columns in some order gives. */
  ghost predicate IsMerge(table: string, a: Row, b: Row, n: Row)
  {
    exists order :: Walks(order, b.Keys) && (forall i :: 0 <= i < |order| ==> order[i] in b) &&
      n == MergeInOrder(table, a, b, order)
  }

  lemma {:induction false} MergeStep(table: string, a: Row, b: Row, done: set<Name>, k: Name)
    requires Mergeable(table, a, b) && k in b && k !in done
    ensures Merged(table, a, Restrict(b, done + {k})) == Extend(table, Merged(table, a, Restrict(b, done)), k, b[k])
  {
    hide Base, Qualified, Merged;
    var before, after := Merged(table, a, Restrict(b, done)), Merged(table, a, Restrict(b, done + {k}));
    var n := Extend(table, before, k, b[k]);
    MergedIs(table, a, Restrict(b, done), k);
    var ofK := Base(table, k);
    if ofK.Some? { BaseOfQualified(table, k, ofK.value); }
    forall q ensures (q in after <==> q in n) && (q in after ==> after[q] == n[q]) {
      MergedIs(table, a, Restrict(b, done), q);
      MergedIs(table, a, Restrict(b, done + {k}), q);
      BaseOfQualified(table, q, k);
    }
  }

  ghost function NameSet(order: seq<Name>): set<Name>
  {
    set k | k in order
  }

  lemma {:induction false} MergedInOrder(table: string, a: Row, b: Row, order: seq<Name>)
    requires Mergeable(table, a, b) && forall i :: 0 <= i < |order| ==> order[i] in b
    requires forall i, j :: 0 <= i < j < |order| ==> order[i] != order[j]
    ensures MergeInOrder(table, a, b, order) == Merged(table, a, Restrict(b, NameSet(order)))
  {
    hide Merged, Mergeable, Qualified, Extend;
    if order == [] {
      NothingMerged(table, a, b);
      assert Restrict(b, NameSet([])) == Restrict(b, {});
    } else {
      var n := |order| - 1;
      MergedInOrder(table, a, b, order[..n]);
      assert order == order[..n] + [order[n]];
      assert NameSet(order) == NameSet(order[..n]) + {order[n]};
      MergeStep(table, a, b, NameSet(order[..n]), order[n]);
    }
  }

  /** The order does not matter when no column only on the right has a qualified name. */
  lemma {:induction false} MergeIsMerged(table: string, a: Row, b: Row, n: Row)
    requires Mergeable(table, a, b) && IsMerge(table, a, b, n)
    ensures n == Merged(table, a, b)
  {
    hide Merged, Mergeable;
    var order :| Walks(order, b.Keys) && (forall i :: 0 <= i < |order| ==> order[i] in b) &&
      n == MergeInOrder(table, a, b, order);
    MergedInOrder(table, a, b, order);
    assert NameSet(order) == b.Keys;
    assert Restrict(b, b.Keys) == b;
  }

  // ------------------------------------------- when the order of walking matters

  /** Rows with these columns have one merge whatever they hold. */
  ghost predicate Determined(table: string, left: set<Name>, right: set<Name>)
  {
    forall a: Row, b: Row, m, n ::
      a.Keys == left && b.Keys == right && IsMerge(table, a, b, m) && IsMerge(table, a, b, n) ==> m == n
  }

  lemma {:induction false} SomeWalk(names: set<Name>) returns (order: seq<Name>)
    ensures Walks(order, names)
  {
    if names == {} {
      order := [];
    } else {
      var k :| k in names;
      var rest := SomeWalk(names - {k});
      WalksPush(rest, names - {k}, k);
      assert names - {k} + {k} == names;
      order := rest + [k];
    }
  }

  lemma QualifiedLonger(table: string, k: Name)
    ensures |Qualified(table, k).text| > |k.text|
  {
  }

  lemma QualifiedTells(table: string, j: Name, k: Name)
    requires Qualified(table, j) == Qualified(table, k)
    ensures j == k
  {
    BaseOfQualified(table, Qualified(table, j), j);
    BaseOfQualified(table, Qualified(table, k), k);
  }

  /** With `k` left out, its qualified name comes from the right row only, and is not qualified again. */
  lemma {:induction false} WithoutRepeated(table: string, a: Row, b: Row, order: seq<Name>, k: Name, v: Value)
    requires (forall i :: 0 <= i < |order| ==> order[i] in b) && k !in order
    requires forall i, j :: 0 <= i < j < |order| ==> order[i] != order[j]
    requires var q := Qualified(table, k);
             var qq := Qualified(table, q);
             q !in a && (qq in a ==> a[qq] != v) && (qq in b ==> b[qq] != v)
    ensures var q := Qualified(table, k);
            var qq := Qualified(table, q);
            var n := MergeInOrder(table, a, b, order);
            a.Keys <= n.Keys && (q in n <==> q in order) && (qq in n ==> n[qq] != v)
    decreases |order|
  {
    hide Qualified, MergeInOrder, Extend;
    if order != [] {
      var i := |order| - 1;
      var x, q := order[i], Qualified(table, k);
      WithoutRepeated(table, a, b, order[..i], k, v);
      assert order == order[..i] + [x] && x !in order[..i];
      assert forall y :: y in order <==> y in order[..i] || y == x;
      MergeOneMore(table, a, b, order[..i], x);
      ExtendedElsewhere(table, MergeInOrder(table, a, b, order[..i]), x, b[x], k, v);
    } else {
      NoneWalked(table, a, b);
    }
  }

  lemma NoneWalked(table: string, a: Row, b: Row)
    ensures MergeInOrder(table, a, b, []) == a
  {
  }

  lemma {:induction false} ExtendedElsewhere(table: string, n: Row, x: Name, w: Value, k: Name, v: Value)
    requires var q := Qualified(table, k);
             var qq := Qualified(table, q);
             x != k && (x == q ==> q !in n) && (qq in n ==> n[qq] != v) && (x == qq ==> w != v)
    ensures var q := Qualified(table, k);
            var qq := Qualified(table, q);
            var m := Extend(table, n, x, w);
            n.Keys <= m.Keys && (q in m <==> q in n || x == q) && (qq in m ==> m[qq] != v)
  {
    hide Qualified;
    var q := Qualified(table, k);
    QualifiedLonger(table, q);
    if Qualified(table, x) == q { QualifiedTells(table, x, k); }
    if Qualified(table, x) == Qualified(table, q) { QualifiedTells(table, x, q); }
  }

  /** Once the repeated column and then its qualified name were walked, the twice qualified name stays. */
  lemma {:induction false} TwiceQualified(table: string, a: Row, b: Row, order: seq<Name>, k: Name)
    requires k in a && k in b && Qualified(table, k) in b
    requires |order| >= 2 && order[0] == k && order[1] == Qualified(table, k)
    requires forall i :: 0 <= i < |order| ==> order[i] in b
    requires forall i, j :: 0 <= i < j < |order| ==> order[i] != order[j]
    ensures var q := Qualified(table, k);
            var qq := Qualified(table, q);
            var n := MergeInOrder(table, a, b, order);
            qq in n && n[qq] == b[q]
    decreases |order|
  {
    hide Qualified;
    var q, i := Qualified(table, k), |order| - 1;
    var x := order[i];
    if i == 1 {
      assert order == [k] + [q] && [] + [k] == [k];
      MergeOneMore(table, a, b, [], k);
      MergeOneMore(table, a, b, [k], q);
    } else {
      TwiceQualified(table, a, b, order[..i], k);
      assert x != q;
      if Qualified(table, x) == Qualified(table, q) { QualifiedTells(table, x, q); }
    }
  }

  /** A repeated column whose qualified name is a column of the right side only: two walks give two rows. */
  lemma {:induction false} TwoMerges(table: string, a: Row, b: Row, k: Name) returns (m: Row, n: Row)
    requires var q := Qualified(table, k);
             var qq := Qualified(table, q);
             && k in a && k in b && q in b && q !in a
             && (qq in a ==> a[qq] != b[q]) && (qq in b ==> b[qq] != b[q])
    ensures IsMerge(table, a, b, m) && IsMerge(table, a, b, n) && m != n
  {
    hide Qualified, MergeInOrder;
    var q := Qualified(table, k);
    var qq := Qualified(table, q);
    QualifiedLonger(table, k);
    QualifiedLonger(table, q);
    var others := SomeWalk(b.Keys - {k});
    var late := others + [k];
    WalksPush(others, b.Keys - {k}, k);
    assert b.Keys - {k} + {k} == b.Keys;
    m := MergeInOrder(table, a, b, late);
    WithoutRepeated(table, a, b, others, k, b[q]);
    MergeOneMore(table, a, b, others, k);
    var rest := SomeWalk(b.Keys - {k, q});
    var early := [k, q] + rest;
    WalksInFront(rest, b.Keys, k, q);
    n := MergeInOrder(table, a, b, early);
    TwiceQualified(table, a, b, early, k);
  }

  lemma WalksInFront(rest: seq<Name>, names: set<Name>, k: Name, q: Name)
    requires k != q && k in names && q in names && Walks(rest, names - {k, q})
    ensures Walks([k, q] + rest, names)
  {
    var order := [k, q] + rest;
    assert forall x :: x in order <==> x == k || x == q || x in rest;
  }

  lemma MergeOneMore(table: string, a: Row, b: Row, order: seq<Name>, k: Name)
    requires (forall i :: 0 <= i < |order| ==> order[i] in b) && k in b
    ensures MergeInOrder(table, a, b, order + [k]) == Extend(table, MergeInOrder(table, a, b, order), k, b[k])
  {
    assert (order + [k])[..|order|] == order;
  }

  /** The columns of two tables determine the merge exactly when no column only on the right has a qualified name. */
  lemma {:induction false} MergeDetermined(table: string, a: Row, b: Row)
    ensures Determined(table, a.Keys, b.Keys) <==> Mergeable(table, a, b)
  {
    hide IsMerge, Merged, Qualified;
    if Mergeable(table, a, b) {
      forall a': Row, b': Row, m, n | a'.Keys == a.Keys && b'.Keys == b.Keys && IsMerge(table, a', b', m) && IsMerge(table, a', b', n)
        ensures m == n
      {
        MergeIsMerged(table, a', b', m);
        MergeIsMerged(table, a', b', n);
      }
    } else {
      var k :| k in a && k in b && Qualified(table, k) in b && Qualified(table, k) !in a;
      var a': Row := map x | x in a :: Null;
      var b': Row := map x | x in b :: if x == Qualified(table, k) then Int(1) else Int(2);
      assert a'.Keys == a.Keys && b'.Keys == b.Keys;
      QualifiedLonger(table, Qualified(table, k));
      var m, n := TwoMerges(table, a', b', k);
    }
  }

  method MergeRows(table: string, a: Row, b: Row) returns (n: Row)
    ensures IsMerge(table, a, b, n)
    ensures Mergeable(table, a, b) ==> n == Merged(table, a, b)
  {
    hide Merged, Mergeable, Qualified;
    n := a;
    ghost var order: seq<Name> := [];
    var todo := b.Keys;
    while todo != {}
      invariant todo <= b.Keys && Walks(order, b.Keys - todo)
      invariant (forall i :: 0 <= i < |order| ==> order[i] in b) && n == MergeInOrder(table, a, b, order)
    {
      var k :| k in todo;
      assert (order + [k])[..|order|] == order;
      WalksPush(order, b.Keys - todo, k);
      assert b.Keys - (todo - {k}) == b.Keys - todo + {k};
      if k in n {
        n := n[Qualified(table, k) := b[k]];
      } else {
        n := n[k := b[k]];
      }
      order, todo := order + [k], todo - {k};
    }
    assert b.Keys - todo == b.Keys;
    if Mergeable(table, a, b) { MergeIsMerged(table, a, b, n); }
  }

  lemma {:induction false} WalksPush(order: seq<Name>, names: set<Name>, k: Name)
    requires Walks(order, names) && k !in names
    ensures Walks(order + [k], names + {k})
  {
    assert forall x :: x in order + [k] <==> x in order || x == k;
  }

  lemma {:induction false} NothingMerged(table: string, a: Row, b: Row)
    ensures Merged(table, a, Restrict(b, {})) == a
  {
    hide Merged, Base;
    var m := Merged(table, a, Restrict(b, {}));
    forall q ensures (q in m <==> q in a) && (q in m ==> m[q] == a[q]) {
      MergedIs(table, a, Restrict(b, {}), q);
    }
  }

  // --------------------------------------------------------------- the joins

  /** The two columns compared, and the right table. */
  datatype On = On(table: string, left: Name, right: Name)

  type Pair = (Row, Row)

  /** The pair is kept: same type and value, and comparing equal. */
  predicate Pairs(show: Printer, on: On, a: Row, b: Row)
  {
    && IndexKey(Lookup(a, on.left)) == IndexKey(Lookup(b, on.right))
    && Order(show, Lookup(a, on.left), Lookup(b, on.right)) == 0
  }

  function Partners(show: Printer, on: On, a: Row, right: seq<Row>): seq<Pair>
  {
    if right == [] then []
    else
      var n := |right| - 1;
      Partners(show, on, a, right[..n]) + if Pairs(show, on, a, right[n]) then [(a, right[n])] else []
  }

  /** The nested loop: for each left row in order, its partners in order. */
  function NestedLoop(show: Printer, on: On, left: seq<Row>, right: seq<Row>): seq<Pair>
  {
    if left == [] then []
    else
      var n := |left| - 1;
      NestedLoop(show, on, left[..n], right) + Partners(show, on, left[n], right)
  }

  /** The pairs merged one by one. */
  ghost predicate MergesOf(table: string, pairs: seq<Pair>, joined: seq<Row>)
  {
    |joined| == |pairs| && forall i :: 0 <= i < |pairs| ==> IsMerge(table, pairs[i].0, pairs[i].1, joined[i])
  }

  /** The rows of the right side with that join key, in order. */
  function Bucket(on: On, right: seq<Row>, x: Value): seq<Row>
  {
    if right == [] then []
    else
      var n := |right| - 1;
      Bucket(on, right[..n], x) + if IndexKey(Lookup(right[n], on.right)) == x then [right[n]] else []
  }

  lemma {:induction false} PartnersPush(show: Printer, on: On, a: Row, right: seq<Row>, b: Row)
    ensures Partners(show, on, a, right + [b]) ==
            Partners(show, on, a, right) + if Pairs(show, on, a, b) then [(a, b)] else []
  {
    assert (right + [b])[..|right|] == right;
  }

  /** A left row's partners are all in its bucket. */
  lemma {:induction false} PartnersInBucket(show: Printer, on: On, a: Row, right: seq<Row>)
    ensures Partners(show, on, a, Bucket(on, right, IndexKey(Lookup(a, on.left)))) == Partners(show, on, a, right)
  {
    hide Lookup, Order, IndexKey;
    if right != [] {
      var n, x := |right| - 1, IndexKey(Lookup(a, on.left));
      PartnersInBucket(show, on, a, right[..n]);
      var before := Bucket(on, right[..n], x);
      PartnersPush(show, on, a, before, right[n]);
      assert Bucket(on, right, x) == if IndexKey(Lookup(right[n], on.right)) == x then before + [right[n]] else before;
    }
  }

  type Buckets = map<Value, seq<Row>>

  function BucketIn(buckets: Buckets, x: Value): seq<Row>
  {
    if x in buckets then buckets[x] else []
  }

  method BuildBuckets(on: On, right: seq<Row>) returns (buckets: Buckets)
    ensures forall x :: BucketIn(buckets, x) == Bucket(on, right, x)
  {
    hide Lookup, IndexKey;
    buckets := map[];
    for i := 0 to |right|
      invariant forall x :: BucketIn(buckets, x) == Bucket(on, right[..i], x)
    {
      var key := IndexKey(Lookup(right[i], on.right));
      assert right[..i + 1][..i] == right[..i];
      buckets := buckets[key := BucketIn(buckets, key) + [right[i]]];
    }
    assert right[..|right|] == right;
  }

  /** Probe the buckets from the left: the pairs of the nested loop in its order, each merged. */
  method HashJoin(show: Printer, on: On, left: seq<Row>, right: seq<Row>) returns (joined: seq<Row>)
    ensures MergesOf(on.table, NestedLoop(show, on, left, right), joined)
  {
    hide Lookup, Order, IndexKey, Partners, Bucket, IsMerge;
    var buckets := BuildBuckets(on, right);
    joined := [];
    for i := 0 to |left|
      invariant MergesOf(on.table, NestedLoop(show, on, left[..i], right), joined)
    {
      var more := Probe(show, on, left[i], right, BucketIn(buckets, IndexKey(Lookup(left[i], on.left))));
      joined := joined + more;
      assert left[..i + 1][..i] == left[..i];
    }
    assert left[..|left|] == left;
  }

  /** One left row against its bucket. */
  method Probe(show: Printer, on: On, a: Row, right: seq<Row>, bucket: seq<Row>) returns (joined: seq<Row>)
    requires bucket == Bucket(on, right, IndexKey(Lookup(a, on.left)))
    ensures MergesOf(on.table, Partners(show, on, a, right), joined)
  {
    hide Lookup, Order, IndexKey, Bucket, IsMerge, Partners, MergesOf;
    PartnersInBucket(show, on, a, right);
    NoPartners(show, on, a);
    InBucket(on, right, IndexKey(Lookup(a, on.left)));
    joined := [];
    for j := 0 to |bucket|
      invariant MergesOf(on.table, Partners(show, on, a, bucket[..j]), joined)
    {
      var b := bucket[j];
      PartnersPush(show, on, a, bucket[..j], b);
      assert bucket[..j + 1] == bucket[..j] + [b];
      if Order(show, Lookup(a, on.left), Lookup(b, on.right)) == 0 {
        var n := MergeRows(on.table, a, b);
        MergesPush(on.table, Partners(show, on, a, bucket[..j]), joined, (a, b), n);
        joined := joined + [n];
      } else {
        assert Partners(show, on, a, bucket[..j + 1]) == Partners(show, on, a, bucket[..j]);
      }
    }
    assert bucket[..|bucket|] == bucket;
  }

  lemma NoPartners(show: Printer, on: On, a: Row)
    ensures Partners(show, on, a, []) == [] && MergesOf(on.table, [], [])
  {
  }

  lemma MergesPush(table: string, pairs: seq<Pair>, joined: seq<Row>, pair: Pair, row: Row)
    requires MergesOf(table, pairs, joined) && IsMerge(table, pair.0, pair.1, row)
    ensures MergesOf(table, pairs + [pair], joined + [row])
  {
    hide IsMerge;
  }

  lemma {:induction false} InBucket(on: On, right: seq<Row>, x: Value)
    ensures forall b :: b in Bucket(on, right, x) ==> IndexKey(Lookup(b, on.right)) == x
  {
    hide Lookup, IndexKey;
    if right != [] { InBucket(on, right[..|right| - 1], x); }
  }

  /** With no qualified names on the right the joined rows are determined. */
  lemma {:induction false} JoinDetermined(table: string, pairs: seq<Pair>, joined: seq<Row>)
    requires MergesOf(table, pairs, joined) && forall i :: 0 <= i < |pairs| ==> Mergeable(table, pairs[i].0, pairs[i].1)
    ensures forall i :: 0 <= i < |pairs| ==> joined[i] == Merged(table, pairs[i].0, pairs[i].1)
  {
    hide IsMerge, Mergeable, Merged;
    forall i | 0 <= i < |pairs| ensures joined[i] == Merged(table, pairs[i].0, pairs[i].1) {
      MergeIsMerged(table, pairs[i].0, pairs[i].1, joined[i]);
    }
  }

  /** Pairs are kept exactly on equal index keys, NULLs included: comparing them again drops none. */
  lemma {:induction false} PairsIsEquality(show: Printer, on: On, a: Row, b: Row)
    ensures Pairs(show, on, a, b) <==> IndexKey(Lookup(a, on.left)) == IndexKey(Lookup(b, on.right))
  {
    hide Order, IndexKey;
    var v, w := Lookup(a, on.left), Lookup(b, on.right);
    if IndexKey(v) == IndexKey(w) { SameKeyEqual(show, v, w); }
  }
}
