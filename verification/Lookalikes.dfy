/**
 * Going through an index against scanning: the index finds values of the same
 * type and value, the scan values that compare equal.
 */
module Lookalikes {
  import opened Common
  import opened Bytes
  import opened Codec
  import opened Conditions
  import opened Numbers
  import opened Printing
  import opened Table

  /** The keys of the rows a condition selects; without one, all of them. */
  ghost function Selected(show: Printer, where: Option<Condition>, rows: map<Key, Row>): set<Key>
  {
    set k | k in rows && (where.Some? ==> Match(show, where.value, rows[k]))
  }

  /** `isIndexedEquality`: the whole condition is one equality with a value on an indexed column. */
  predicate IndexedEquality(index: Index, where: Option<Condition>)
  {
    && where.Some? && where.value.Test? && where.value.op == Eq
    && where.value.column.text != "" && OperandValue(where.value.operand) != Null
    && where.value.column in index
  }

  /** The keys left after going through an exact bucket. */
  ghost function ThroughIndex(show: Printer, column: Name, operand: Operand, rows: map<Key, Row>): set<Key>
  {
    Selected(show, Some(Test(column, Eq, operand)), rows) * WithValue(rows, column, OperandValue(operand))
  }

  // ------------------------------------------------------------- lookalikes

  /** What a column of the type holds, NULL apart; `nans` tells whether it may hold NaNs. */
  predicate Stored(kind: Kind, w: Value, nans: bool)
  {
    Fits(kind, w) && Settled(kind, w) && (nans || !NotANumber(w))
  }

  /** Every row has the column, with NULL or a value of the type. */
  ghost predicate ColumnTyped(rows: map<Key, Row>, column: Name, kind: Kind, nans: bool)
  {
    forall k :: k in rows ==> column in rows[k] && (rows[k][column] == Null || Stored(kind, rows[k][column], nans))
  }

  /** A stored value that compares equal to the value asked for and has another index key. */
  predicate Lookalike(show: Printer, kind: Kind, v: Value, w: Value, nans: bool)
  {
    Stored(kind, w, nans) && IndexKey(w) != IndexKey(v) && Order(show, w, v) == 0
  }

  /** A row with a lookalike is selected by a scan and missed through the index. */
  lemma {:induction false} LookalikeMissed(show: Printer, column: Name, operand: Operand, kind: Kind, w: Value, nans: bool)
    requires OperandValue(operand) != Null && w != Null && Lookalike(show, kind, OperandValue(operand), w, nans)
    ensures var rows: map<Key, Row> := map[[] := map[column := w]];
            && ColumnTyped(rows, column, kind, nans)
            && Selected(show, Some(Test(column, Eq, operand)), rows) == {[]}
            && ThroughIndex(show, column, operand, rows) == {}
  {
    hide Order, Stored, IndexKey;
    var rows: map<Key, Row> := map[[] := map[column := w]];
    assert Lookup(rows[[]], column) == w;
    assert Match(show, Test(column, Eq, operand), rows[[]]);
  }

  /** Without a lookalike both select the same rows. */
  lemma {:induction false} NoneMissed(show: Printer, column: Name, operand: Operand, rows: map<Key, Row>, kind: Kind, nans: bool)
    requires ColumnTyped(rows, column, kind, nans)
    requires forall w :: !Lookalike(show, kind, OperandValue(operand), w, nans)
    ensures ThroughIndex(show, column, operand, rows) == Selected(show, Some(Test(column, Eq, operand)), rows)
  {
    hide Order, Stored, IndexKey;
    var v, c := OperandValue(operand), Test(column, Eq, operand);
    forall k | k in rows && Match(show, c, rows[k]) ensures IndexField(rows[k], column) == IndexKey(v) {
      assert !Lookalike(show, kind, v, rows[k][column], nans);
    }
  }

  // --------------------------------------------------- which values have one

  /**
   * The value asked for has no lookalike in a column of the type.
   *
   * - In an int column: an int that no other int rounds to; a float that is
   *   no whole number in range; anything else that does not print as an int.
   * - In a string column: a string only.
   * - In a bool column: a bool, or what does not print as one.
   * - In a float column: with NaNs no number; without, a float but zero and
   *   NaN; and what does not print as a float.
   * - In a byte column: bytes but the empty ones, nil, and what does not print
   *   as bytes.
   * - In a time column: what no other instant prints as.
   */
  ghost predicate Indexable(show: Printer, kind: Kind, v: Value, nans: bool)
  {
    match kind
    case IntType =>
      if v.Int? then Alone(Magnitude(v.n))
      else if v.Float? then !IsNaN(v.bits) && !WholeInRange(v.bits)
      else !IsNumeral(Sprint(show, v))
    case StringType => v.Str?
    case BoolType => v.Bool? || Sprint(show, v) !in {TRUE_TEXT, FALSE_TEXT}
    case FloatType =>
      if IsNumber(v) then !nans && v.Float? && !IsNaN(v.bits) && FloatNumber(v.bits) != 0
      else !PrintsFloat(show, Sprint(show, v), nans)
    case BytesType => v.NilBlob? || (if v.Blob? then v.data != [] else !IsSliceText(Sprint(show, v)))
    case TimestampType => !PrintsOther(show, v)
    case Unknown => true
  }

  /** The text is what some float prints. */
  ghost predicate PrintsFloat(show: Printer, b: bytes, nans: bool)
  {
    exists bits: u64 :: (nans || !IsNaN(bits)) && show(Float(bits)) == b
  }

  /** Another instant prints as the value does. */
  ghost predicate PrintsOther(show: Printer, v: Value)
  {
    exists n: i64 :: Time(n, UTC) != v && show(Time(n, UTC)) == Sprint(show, v)
  }

  lemma {:induction false} SamePrint(show: Printer, v: Value, w: Value)
    requires !(IsNumber(v) && IsNumber(w)) && !(v.Str? && w.Str?) && !(v.Bool? && w.Bool?)
    ensures Order(show, w, v) == 0 <==> Sprint(show, w) == Sprint(show, v)
  {
    hide Sprint;
    CompareIsRankOrder(Sprint(show, w), Sprint(show, v));
  }

  lemma {:induction false} InIntColumn(show: Printer, v: Value, nans: bool)
    requires v != Null
    ensures (exists w :: Lookalike(show, IntType, v, w, nans)) <==> !Indexable(show, IntType, v, nans)
  {
    hide Order, Sprint, Alone, IsNumeral, WholeInRange, IntNumber, FloatNumber;
    if v.Int? {
      FloatTellsApart(v.n);
      forall w: i64 ensures Lookalike(show, IntType, v, Int(w), nans) <==> w != v.n && AsFloat(w) == AsFloat(v.n) {
        IntsEqual(show, w, v.n);
      }
    } else if v.Float? {
      FloatOfSomeInt(v.bits);
      forall w: i64 ensures Lookalike(show, IntType, v, Int(w), nans) <==> IsNaN(v.bits) || IntNumber(w) == FloatNumber(v.bits) {
        MixedEqual(show, w, v.bits);
      }
      assert Lookalike(show, IntType, v, Int(0), nans) <== IsNaN(v.bits);
    } else {
      NumeralOfSomeInt(Sprint(show, v));
      forall w: i64 ensures Lookalike(show, IntType, v, Int(w), nans) <==> Numeral(w) == Sprint(show, v) {
        SamePrint(show, v, Int(w));
        IntPrints(show, w);
      }
    }
  }

  lemma IntPrints(show: Printer, n: i64)
    ensures Sprint(show, Int(n)) == Numeral(n)
  {
  }

  lemma MixedEqual(show: Printer, n: i64, bits: u64)
    ensures Order(show, Int(n), Float(bits)) == 0 <==> IsNaN(bits) || IntNumber(n) == FloatNumber(bits)
  {
    hide IntNumber, FloatNumber, IsNaN;
  }

  lemma {:induction false} InStringColumn(show: Printer, v: Value, nans: bool)
    requires v != Null
    ensures (exists w :: Lookalike(show, StringType, v, w, nans)) <==> !v.Str?
  {
    hide Sprint;
    if v.Str? {
      forall w: Value | w.Str? ensures Order(show, w, v) == 0 <==> w == v { CompareIsRankOrder(w.s, v.s); }
    } else {
      var w := Str(Sprint(show, v));
      SamePrint(show, v, w);
      StringPrints(show, w.s);
      assert Lookalike(show, StringType, v, w, nans);
    }
  }

  lemma StringPrints(show: Printer, s: bytes)
    ensures Sprint(show, Str(s)) == s
  {
  }

  lemma {:induction false} InBoolColumn(show: Printer, v: Value, nans: bool)
    requires v != Null
    ensures (exists w :: Lookalike(show, BoolType, v, w, nans)) <==> !Indexable(show, BoolType, v, nans)
  {
    hide Order, Sprint;
    BoolsPrint(show);
    if v.Bool? {
      BoolsEqual(show, v.b);
    } else {
      SamePrint(show, v, Bool(true));
      SamePrint(show, v, Bool(false));
      assert Lookalike(show, BoolType, v, Bool(true), nans) <==> Sprint(show, v) == TRUE_TEXT;
      assert Lookalike(show, BoolType, v, Bool(false), nans) <==> Sprint(show, v) == FALSE_TEXT;
    }
  }

  lemma BoolsPrint(show: Printer)
    ensures Sprint(show, Bool(true)) == TRUE_TEXT && Sprint(show, Bool(false)) == FALSE_TEXT
  {
  }

  lemma BoolsEqual(show: Printer, b: bool)
    ensures Order(show, Bool(!b), Bool(b)) != 0
  {
  }

  lemma {:induction false} InFloatColumn(show: Printer, v: Value, nans: bool)
    requires v != Null
    ensures (exists w :: Lookalike(show, FloatType, v, w, nans)) <==> !Indexable(show, FloatType, v, nans)
  {
    hide Order, Sprint, IntNumber, FloatNumber;
    if v.Int? {
      var bits := FloatOf(v.n);
      assert Lookalike(show, FloatType, v, Float(bits), nans) by { NumbersEqual(show, v, Float(bits)); }
    } else if v.Float? {
      FloatInFloatColumn(show, v.bits, nans);
    } else {
      forall bits: u64
        ensures Lookalike(show, FloatType, v, Float(bits), nans) <==> (nans || !IsNaN(bits)) && show(Float(bits)) == Sprint(show, v)
      {
        SamePrint(show, v, Float(bits));
        FloatPrints(show, bits);
      }
    }
  }

  lemma FloatPrints(show: Printer, bits: u64)
    ensures Sprint(show, Float(bits)) == show(Float(bits))
  {
  }

  lemma NumbersEqual(show: Printer, v: Value, w: Value)
    requires IsNumber(v) && IsNumber(w)
    ensures Order(show, w, v) == 0 <==> NotANumber(v) || NotANumber(w) || NumberOf(v) == NumberOf(w)
  {
    hide IntNumber, FloatNumber, IsNaN;
  }

  lemma {:induction false} FloatInFloatColumn(show: Printer, a: u64, nans: bool)
    ensures (exists w :: Lookalike(show, FloatType, Float(a), w, nans)) <==> nans || IsNaN(a) || FloatNumber(a) == 0
  {
    hide Order, FloatNumber;
    var v := Float(a);
    assert IsNaN(NAN) && !IsNaN(0) && !IsNaN(0x8000_0000_0000_0000);
    ZeroTwice();
    if IsNaN(a) {
      NumbersEqual(show, v, Float(0));
      assert Lookalike(show, FloatType, v, Float(0), nans);
    } else if nans {
      NumbersEqual(show, v, Float(NAN));
      assert Lookalike(show, FloatType, v, Float(NAN), nans);
    } else if FloatNumber(a) == 0 {
      var w := Float(if a == 0 then 0x8000_0000_0000_0000 else 0);
      NumbersEqual(show, v, w);
      assert Lookalike(show, FloatType, v, w, nans);
    } else {
      forall w | Lookalike(show, FloatType, v, w, nans) ensures false {
        NumbersEqual(show, v, w);
        NumberIsPattern(a, w.bits);
      }
    }
  }

  lemma {:induction false} InBytesColumn(show: Printer, v: Value, nans: bool)
    requires v != Null
    ensures (exists w :: Lookalike(show, BytesType, v, w, nans)) <==> !Indexable(show, BytesType, v, nans)
  {
    hide Lookalike, IsSliceText, Sprint;
    if v.Blob? || v.NilBlob? {
      BytesInBytesColumn(show, v, nans);
    } else {
      OtherInBytesColumn(show, v, nans);
    }
  }

  /** Byte slices compare as the bytes they hold; nil compares as empty. */
  lemma {:induction false} SlicesEqual(show: Printer, v: Value, w: Value)
    requires (v.Blob? || v.NilBlob?) && (w.Blob? || w.NilBlob?)
    ensures Order(show, w, v) == 0 <==> (if w.Blob? then w.data else []) == if v.Blob? then v.data else []
  {
    hide Order, SliceText;
    var d, e := if w.Blob? then w.data else [], if v.Blob? then v.data else [];
    SamePrint(show, v, w);
    if SliceText(d) == SliceText(e) { SliceTextTells(d, e); }
  }

  lemma {:induction false} BytesInBytesColumn(show: Printer, v: Value, nans: bool)
    requires v.Blob? || v.NilBlob?
    ensures (exists w :: Lookalike(show, BytesType, v, w, nans)) <==> v == Blob([])
  {
    hide Order;
    if v == Blob([]) {
      SlicesEqual(show, v, NilBlob);
      assert Lookalike(show, BytesType, v, NilBlob, nans);
    } else {
      forall w | Lookalike(show, BytesType, v, w, nans) ensures false {
        SlicesEqual(show, v, w);
      }
    }
  }

  lemma {:induction false} OtherInBytesColumn(show: Printer, v: Value, nans: bool)
    requires v != Null && !v.Blob? && !v.NilBlob?
    ensures (exists w :: Lookalike(show, BytesType, v, w, nans)) <==> IsSliceText(Sprint(show, v))
  {
    hide Order, Sprint, SliceText, IsSliceText;
    SliceOfSomeBytes(Sprint(show, v));
    forall d ensures Lookalike(show, BytesType, v, if d == [] then NilBlob else Blob(d), nans) <==> SliceText(d) == Sprint(show, v) {
      SamePrint(show, v, if d == [] then NilBlob else Blob(d));
      SlicePrints(show, d);
    }
    if w :| Lookalike(show, BytesType, v, w, nans) {
      var d := if w.Blob? then w.data else [];
      assert w == if d == [] then NilBlob else Blob(d);
    }
  }

  lemma SlicePrints(show: Printer, d: bytes)
    ensures Sprint(show, Blob(d)) == SliceText(d) && (d == [] ==> Sprint(show, NilBlob) == SliceText(d))
  {
  }

  lemma {:induction false} InTimeColumn(show: Printer, v: Value, nans: bool)
    requires v != Null
    ensures (exists w :: Lookalike(show, TimestampType, v, w, nans)) <==> PrintsOther(show, v)
  {
    hide Order;
    forall n: i64 ensures Lookalike(show, TimestampType, v, Time(n, UTC), nans) <==> Time(n, UTC) != v && show(Time(n, UTC)) == Sprint(show, v) {
      SamePrint(show, v, Time(n, UTC));
    }
  }

  lemma {:induction false} LookalikesOf(show: Printer, kind: Kind, v: Value, nans: bool)
    requires v != Null
    ensures (exists w :: Lookalike(show, kind, v, w, nans)) <==> !Indexable(show, kind, v, nans)
  {
    hide Lookalike, Alone, IsNumeral, Sprint, FloatNumber, WholeInRange, PrintsFloat, IsSliceText, PrintsOther;
    match kind
    case IntType => InIntColumn(show, v, nans);
    case StringType => InStringColumn(show, v, nans);
    case BoolType => InBoolColumn(show, v, nans);
    case FloatType => InFloatColumn(show, v, nans);
    case BytesType => InBytesColumn(show, v, nans);
    case TimestampType => InTimeColumn(show, v, nans);
    case Unknown => NothingUnknown(show, v, nans);
  }

  lemma NothingUnknown(show: Printer, v: Value, nans: bool)
    ensures forall w :: !Lookalike(show, Unknown, v, w, nans)
  {
  }

  /** Going through the index selects what a scan selects, on every table with such a column. */
  ghost predicate IndexAgrees(show: Printer, column: Name, operand: Operand, kind: Kind, nans: bool)
  {
    forall rows: map<Key, Row> :: ColumnTyped(rows, column, kind, nans) ==>
      ThroughIndex(show, column, operand, rows) == Selected(show, Some(Test(column, Eq, operand)), rows)
  }

  /**
   * For every type of column and every value asked for: index and scan select
   * the same rows on every table exactly when the value is NULL, which nothing
   * equals, or has no lookalike.
   */
  lemma {:induction false} IndexIsScan(show: Printer, column: Name, operand: Operand, kind: Kind, nans: bool)
    ensures IndexAgrees(show, column, operand, kind, nans) <==>
            OperandValue(operand) == Null || Indexable(show, kind, OperandValue(operand), nans)
  {
    hide Lookalike, Indexable, ThroughIndex, Selected, ColumnTyped;
    var v := OperandValue(operand);
    if v == Null {
      forall rows: map<Key, Row> ensures ThroughIndex(show, column, operand, rows) == Selected(show, Some(Test(column, Eq, operand)), rows) {
        NothingEqualsNull(show, column, operand, rows);
      }
    } else {
      LookalikesOf(show, kind, v, nans);
      if Indexable(show, kind, v, nans) {
        forall rows: map<Key, Row> | ColumnTyped(rows, column, kind, nans)
          ensures ThroughIndex(show, column, operand, rows) == Selected(show, Some(Test(column, Eq, operand)), rows)
        {
          NoneMissed(show, column, operand, rows, kind, nans);
        }
      } else {
        var w :| Lookalike(show, kind, v, w, nans);
        NotNull(show, kind, v, w, nans);
        LookalikeMissed(show, column, operand, kind, w, nans);
        var rows: map<Key, Row> := map[[] := map[column := w]];
        assert ColumnTyped(rows, column, kind, nans);
      }
    }
  }

  lemma NotNull(show: Printer, kind: Kind, v: Value, w: Value, nans: bool)
    requires Lookalike(show, kind, v, w, nans)
    ensures w != Null
  {
  }

  lemma NothingEqualsNull(show: Printer, column: Name, operand: Operand, rows: map<Key, Row>)
    requires OperandValue(operand) == Null
    ensures Selected(show, Some(Test(column, Eq, operand)), rows) == ThroughIndex(show, column, operand, rows) == {}
  {
  }

  // --------------------------------------------------------------- examples

  /** An equality whose value the index misses: a row stored with `w` is selected by a scan only. */
  ghost predicate Misses(show: Printer, column: Name, v: Value, w: Value)
  {
    var rows: map<Key, Row> := map[[] := map[column := w]];
    && Selected(show, Some(Test(column, Eq, Literal(v))), rows) == {[]}
    && ThroughIndex(show, column, Literal(v), rows) == {}
  }

  const FIVE_TEXT: bytes := ['5' as int]
  const FIVE_FLOAT: u64 := 0x4014_0000_0000_0000

  lemma FiveText()
    ensures Numeral(5) == FIVE_TEXT
  {
  }

  /** 5 asked of a string column that holds '5', and '5' of an int column that holds 5. */
  lemma {:induction false} FiveAsText(show: Printer, column: Name)
    ensures Misses(show, column, Int(5), Str(FIVE_TEXT)) && Misses(show, column, Str(FIVE_TEXT), Int(5))
  {
    hide Selected, ThroughIndex, Order, Numeral;
    FiveText();
    SamePrint(show, Int(5), Str(FIVE_TEXT));
    SamePrint(show, Str(FIVE_TEXT), Int(5));
    LookalikeMissed(show, column, Literal(Int(5)), StringType, Str(FIVE_TEXT), true);
    LookalikeMissed(show, column, Literal(Str(FIVE_TEXT)), IntType, Int(5), true);
  }

  lemma {:induction false} FiveFloat()
    ensures FloatNumber(FIVE_FLOAT) == IntNumber(5) && !IsNaN(FIVE_FLOAT)
  {
    hide Pow2, One, AsFloat;
    AsFloatExact(5);
    OneIs(1024, 50);
    FiftyBits();
    assert Exponent(FIVE_FLOAT) == 1025 && Mantissa(FIVE_FLOAT) == 0x4_0000_0000_0000;
    assert 5 * (Pow2(1024) * 0x4_0000_0000_0000) == 0x14_0000_0000_0000 * Pow2(1024);
  }

  lemma FiftyBits()
    ensures Pow2(50) == 0x4_0000_0000_0000
  {
    hide Pow2;
    TenBits();
    PowersMultiply(10, 10);
    PowersMultiply(20, 20);
    PowersMultiply(40, 10);
  }

  /** 5 asked of a float column that holds 5.0. */
  lemma {:induction false} FiveAsFloat(show: Printer, column: Name)
    ensures Misses(show, column, Int(5), Float(FIVE_FLOAT))
  {
    hide Selected, ThroughIndex, Order, IntNumber, FloatNumber;
    FiveFloat();
    NumbersEqual(show, Int(5), Float(FIVE_FLOAT));
    LookalikeMissed(show, column, Literal(Int(5)), FloatType, Float(FIVE_FLOAT), false);
  }

  /** 2^53 asked of an int column that holds 2^53 + 1. */
  lemma {:induction false} LargeIntsLookAlike(show: Printer, column: Name)
    ensures Misses(show, column, Int(EXACT_BOUND), Int(EXACT_BOUND + 1))
  {
    hide Selected, ThroughIndex, Order, AsFloat;
    AsFloatCollides();
    IntsEqual(show, EXACT_BOUND + 1, EXACT_BOUND);
    LookalikeMissed(show, column, Literal(Int(EXACT_BOUND)), IntType, Int(EXACT_BOUND + 1), true);
  }

  /** Ints within 2^53 on both sides, strings and bools: index and scan select the same rows. */
  lemma {:induction false} PlainHasNoLookalike(show: Printer, column: Name, operand: Operand, rows: map<Key, Row>)
    requires Plain(OperandValue(operand))
    requires forall k :: k in rows ==> column in rows[k]
    requires forall k :: k in rows && rows[k][column] != Null ==>
      Plain(rows[k][column]) && SameType(rows[k][column], OperandValue(operand))
    ensures ThroughIndex(show, column, operand, rows) == Selected(show, Some(Test(column, Eq, operand)), rows)
  {
    hide Order, Plain, SameType;
    var v, c := OperandValue(operand), Test(column, Eq, operand);
    forall k | k in rows && Match(show, c, rows[k]) ensures IndexField(rows[k], column) == IndexKey(v) {
      OrderIsEquality(show, rows[k][column], v);
    }
  }
}
