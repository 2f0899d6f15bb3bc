/** SELECT on one table outside a transaction: a full scan, or the bucket of an indexed equality, then the filter. */
module Select {
  import opened Common
  import opened Bytes
  import opened Codec
  import opened Conditions
  import opened Lookalikes
  import opened Table

  // ---------------------------------------------------------------- methods

  ghost function KeySet(ks: seq<Key>): set<Key>
  {
    set k | k in ks
  }

  method Filter(show: Printer, where: Option<Condition>, listed: seq<Row>, ghost ks: seq<Key>, ghost rows: map<Key, Row>)
    returns (out: seq<Row>, ghost kept: seq<Key>)
    requires Lists(listed, ks, rows) && Enumerates(ks, KeySet(ks))
    ensures Lists(out, kept, rows)
    ensures Enumerates(kept, Selected(show, where, rows) * KeySet(ks))
    ensures IsListing(out, rows, Selected(show, where, rows) * KeySet(ks))
  {
    hide Match;
    out, kept := [], [];
    for i := 0 to |listed|
      invariant Lists(out, kept, rows)
      invariant Enumerates(kept, Selected(show, where, rows) * KeySet(ks[..i]))
    {
      ghost var before, after := Selected(show, where, rows) * KeySet(ks[..i]), Selected(show, where, rows) * KeySet(ks[..i + 1]);
      assert ks[..i + 1] == ks[..i] + [ks[i]];
      assert ks[i] !in ks[..i];
      if where.None? || Match(show, where.value, listed[i]) {
        assert after == before + {ks[i]};
        EnumeratesPush(kept, before, ks[i]);
        out, kept := out + [listed[i]], kept + [ks[i]];
      } else {
        assert after == before;
      }
    }
    assert ks[..|ks|] == ks;
  }

  ghost predicate HoldsNaN(rows: map<Key, Row>, column: Name)
  {
    exists k :: k in rows && NotANumber(Field(rows[k], column))
  }

  /** The condition, if it goes through the index, asks for a value without lookalikes in its column. */
  ghost predicate SafeWhere(show: Printer, cs: seq<Column>, rows: map<Key, Row>, index: Index, where: Option<Condition>)
  {
    IndexedEquality(index, where) ==>
      exists i :: 1 <= i < |cs| && cs[i].name == where.value.column &&
        Indexable(show, cs[i].kind, OperandValue(where.value.operand), HoldsNaN(rows, cs[i].name))
  }

  /**
   * The rows of the bucket or of a scan, filtered.  With an exact index and a
   * condition that asks for a value without lookalikes, the rows a scan and a
   * filter would give.
   */
  method SelectRows(t: Table, show: Printer, where: Option<Condition>) returns (out: seq<Row>)
    requires t.Ready()
    ensures IsListing(out, t.Rows(), Selected(show, where, t.Rows()) *
              if IndexedEquality(t.secondary, where) then BucketOf(t.secondary, where.value.column, OperandValue(where.value.operand))
              else t.Rows().Keys)
    ensures t.Valid() && SafeWhere(show, t.schema.columns, t.Rows(), t.secondary, where) ==> IsListing(out, t.Rows(), Selected(show, where, t.Rows()))
  {
    hide Exact, RowsOf, AllDecode, Match, ValidSchema, HasColumns, Indexable, HoldsNaN, IsListing, WithValue, BucketOf;
    var listed, all := t.Scan();
    assert t.Rows().Keys == KeySet(all);
    if IndexedEquality(t.secondary, where) {
      listed, all := t.Find(where.value.column, OperandValue(where.value.operand));
      assert BucketOf(t.secondary, where.value.column, OperandValue(where.value.operand)) * t.Rows().Keys == KeySet(all);
      if t.Valid() && SafeWhere(show, t.schema.columns, t.Rows(), t.secondary, where) { SafeAnswer(t, show, where); }
    }
    ghost var ks;
    out, ks := Filter(show, where, listed, all, t.Rows());
    ghost var bucket := if IndexedEquality(t.secondary, where)
                        then BucketOf(t.secondary, where.value.column, OperandValue(where.value.operand)) else t.Rows().Keys;
    assert Selected(show, where, t.Rows()) * KeySet(all) == Selected(show, where, t.Rows()) * bucket;
    if !IndexedEquality(t.secondary, where) {
      assert Selected(show, where, t.Rows()) * KeySet(all) == Selected(show, where, t.Rows());
    }
  }

  lemma {:induction false} SafeAnswer(t: Table, show: Printer, where: Option<Condition>)
    requires t.Valid() && IndexedEquality(t.secondary, where) && SafeWhere(show, t.schema.columns, t.Rows(), t.secondary, where)
    ensures Selected(show, where, t.Rows()) * (BucketOf(t.secondary, where.value.column, OperandValue(where.value.operand)) * t.Rows().Keys)
         == Selected(show, where, t.Rows())
  {
    hide Exact, RowsOf, AllDecode, Match, Indexable, HoldsNaN, ColumnTyped, WithValue, BucketOf, HasColumns;
    var c, rows := where.value, t.Rows();
    BucketIs(t.secondary, t.schema.columns, rows, c.column, OperandValue(c.operand));
    var i :| 1 <= i < |t.schema.columns| && t.schema.columns[i].name == c.column &&
             Indexable(show, t.schema.columns[i].kind, OperandValue(c.operand), HoldsNaN(rows, c.column));
    StoredTyped(t.schema.columns, t.stored, i);
    IndexIsScan(show, c.column, c.operand, t.schema.columns[i].kind, HoldsNaN(rows, c.column));
    assert where == Some(Test(c.column, Eq, c.operand));
  }

  lemma {:induction false} StoredTyped(cs: seq<Column>, stored: map<Key, bytes>, i: nat)
    requires ValidSchema(cs) && AllDecode(cs, stored) && i < |cs|
    ensures ColumnTyped(RowsOf(cs, stored), cs[i].name, cs[i].kind, HoldsNaN(RowsOf(cs, stored), cs[i].name))
  {
    hide Decoded, Fits, Settled;
    forall k | k in stored
      ensures var row := Decoded(cs, stored[k]).value;
              && cs[i].name in row
              && (row[cs[i].name] == Null || (Fits(cs[i].kind, row[cs[i].name]) && Settled(cs[i].kind, row[cs[i].name])))
    {
      DecodedCanonical(cs, stored[k]);
    }
  }

  // -------------------------------------------------------- rows as a bag

  lemma {:induction false} NoRepeats<T>(a: seq<T>, x: T)
    requires forall i, j :: 0 <= i < j < |a| ==> a[i] != a[j]
    ensures multiset(a)[x] == if x in a then 1 else 0
  {
    if a != [] {
      var n := |a| - 1;
      NoRepeats(a[..n], x);
      assert a == a[..n] + [a[n]];
    }
  }

  lemma {:induction false} ListedDistinct(show: Printer, cs: seq<Column>, rows: map<Key, Row>, listed: seq<Row>, ks: seq<Key>)
    requires cs != [] && Keyed(show, cs, rows) && Lists(listed, ks, rows)
    requires forall i, j :: 0 <= i < j < |ks| ==> ks[i] != ks[j]
    ensures forall i, j :: 0 <= i < j < |listed| ==> listed[i] != listed[j]
  {
    hide KeyOf;
    forall i, j | 0 <= i < j < |listed| ensures listed[i] != listed[j] {
      assert KeyOf(show, cs, rows[ks[i]]) == ks[i] && KeyOf(show, cs, rows[ks[j]]) == ks[j];
    }
  }

  /** Two listings of the same keys, in whatever order, are the same bag of rows. */
  lemma {:induction false} SameKeysSameBag(show: Printer, cs: seq<Column>, rows: map<Key, Row>, keys: set<Key>, a: seq<Row>, b: seq<Row>)
    requires cs != [] && Keyed(show, cs, rows)
    requires IsListing(a, rows, keys) && IsListing(b, rows, keys)
    ensures multiset(a) == multiset(b)
  {
    hide Keyed;
    var ka :| Enumerates(ka, keys) && Lists(a, ka, rows);
    var kb :| Enumerates(kb, keys) && Lists(b, kb, rows);
    ListedDistinct(show, cs, rows, a, ka);
    ListedDistinct(show, cs, rows, b, kb);
    forall x ensures multiset(a)[x] == multiset(b)[x] {
      NoRepeats(a, x);
      NoRepeats(b, x);
      if x in a { ListedIn(rows, keys, a, ka, b, kb, x); }
      if x in b { ListedIn(rows, keys, b, kb, a, ka, x); }
    }
  }

  lemma {:induction false} ListedIn(rows: map<Key, Row>, keys: set<Key>, a: seq<Row>, ka: seq<Key>, b: seq<Row>, kb: seq<Key>, x: Row)
    requires Lists(a, ka, rows) && Enumerates(ka, keys) && Lists(b, kb, rows) && Enumerates(kb, keys) && x in a
    ensures x in b
  {
    var i :| 0 <= i < |a| && a[i] == x;
    assert ka[i] in keys;
    var j :| 0 <= j < |kb| && kb[j] == ka[i];
    assert b[j] == x;
  }
}
