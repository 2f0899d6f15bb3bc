/** Conditions on rows, and the comparison they rest on. */
module Conditions {
  import opened Common
  import opened Bytes
  import opened Codec
  import opened Numbers
  import opened Printing

  // ------------------------------------------------------------- comparison

  function Sign(less: bool, greater: bool): int
  {
    if less then -1 else if greater then 1 else 0
  }

  predicate IsNumber(v: Value)
  {
    v.Int? || v.Float?
  }

  predicate NotANumber(v: Value)
  {
    v.Float? && IsNaN(v.bits)
  }

  function NumberOf(v: Value): int
    requires IsNumber(v)
  {
    if v.Int? then IntNumber(v.n) else FloatNumber(v.bits)
  }

  /** Numbers compare as floats, a NaN as equal to all; strings by bytes; false before true; the rest as printed. */
  function Order(show: Printer, a: Value, b: Value): int
  {
    if IsNumber(a) && IsNumber(b) then
      if NotANumber(a) || NotANumber(b) then 0
      else Sign(NumberOf(a) < NumberOf(b), NumberOf(a) > NumberOf(b))
    else
      match (a, b)
      case (Str(x), Str(y)) => Compare(x, y)
      case (Bool(x), Bool(y)) => if x == y then 0 else if !x then -1 else 1
      case _ => Compare(Sprint(show, a), Sprint(show, b))
  }

  /** Two ints compare equal when they are one float. */
  lemma {:induction false} IntsEqual(show: Printer, x: i64, y: i64)
    ensures Order(show, Int(x), Int(y)) == 0 <==> AsFloat(x) == AsFloat(y)
  {
    hide AsFloat, One;
    var u := One();
    if AsFloat(x) < AsFloat(y) { assert AsFloat(x) * u < AsFloat(y) * u; }
    if AsFloat(y) < AsFloat(x) { assert AsFloat(y) * u < AsFloat(x) * u; }
  }

  /** Values with one index key compare equal. */
  lemma {:induction false} SameKeyEqual(show: Printer, v: Value, w: Value)
    requires IndexKey(v) == IndexKey(w)
    ensures Order(show, v, w) == 0
  {
    hide Sprint, IntNumber, FloatNumber;
    assert IsNaN(NAN);
    if v.Str? { CompareIsRankOrder(v.s, v.s); }
    CompareIsRankOrder(Sprint(show, v), Sprint(show, v));
  }

  /** A value of one of the three types, and an int within the range of exact floats. */
  predicate Plain(v: Value)
  {
    v.Str? || v.Bool? || (v.Int? && -EXACT_BOUND <= v.n <= EXACT_BOUND)
  }

  predicate SameType(a: Value, b: Value)
  {
    (a.Int? && b.Int?) || (a.Str? && b.Str?) || (a.Bool? && b.Bool?)
  }

  /** On plain values of one type, comparing equal is being equal. */
  lemma OrderIsEquality(show: Printer, a: Value, b: Value)
    requires SameType(a, b) && Plain(a) && Plain(b)
    ensures Order(show, a, b) == 0 <==> a == b
  {
    hide AsFloat, IntNumber;
    if a.Int? {
      IntsEqual(show, a.n, b.n);
      AsFloatExact(a.n);
      AsFloatExact(b.n);
    } else if a.Str? {
      CompareIsRankOrder(a.s, b.s);
    }
  }

  // -------------------------------------------------------------- conditions

  datatype Op = Eq | Ne | Lt | Gt | Le | Ge

  datatype Operand = Literal(value: Value) | Param(index: int)

  /** What the operand is compared as; a parameter left unbound is a value of its own type. */
  function OperandValue(o: Operand): Value
  {
    match o
    case Literal(v) => v
    case Param(i) => Other(i)
  }

  datatype Condition =
    | And(left: Condition, right: Condition)
    | Or(left: Condition, right: Condition)
    | Test(column: Name, op: Op, operand: Operand)
    | IsNull(column: Name)
    | IsNotNull(column: Name)

  function DotAt(s: string): (i: nat)
    ensures i <= |s|
    ensures i < |s| ==> s[i] == '.'
  {
    if s == [] || s[0] == '.' then 0 else 1 + DotAt(s[1..])
  }

  /** The column, or the column after the qualifying table name. */
  function Lookup(row: Row, name: Name): Value
  {
    if name in row then row[name]
    else
      var i := DotAt(name.text);
      if i < |name.text| then
        var short := Name(name.text[i + 1..]);
        if short in row then row[short] else Null
      else Null
  }

  predicate Holds(op: Op, cmp: int)
  {
    match op
    case Eq => cmp == 0
    case Ne => cmp != 0
    case Lt => cmp < 0
    case Gt => cmp > 0
    case Le => cmp <= 0
    case Ge => cmp >= 0
  }

  predicate Match(show: Printer, c: Condition, row: Row)
  {
    match c
    case And(l, r) => Match(show, l, row) && Match(show, r, row)
    case Or(l, r) => Match(show, l, row) || Match(show, r, row)
    case IsNull(column) => Lookup(row, column) == Null
    case IsNotNull(column) => Lookup(row, column) != Null
    case Test(column, op, operand) =>
      var v := Lookup(row, column);
      v != Null && OperandValue(operand) != Null && Holds(op, Order(show, v, OperandValue(operand)))
  }
}
