/** The WHERE grammar: a recursive-descent parser over a moving position, and the printer it undoes. */
module Where {
  import opened Common
  import opened Bytes
  import opened Tokens
  import opened Conditions
  import C = Codec

  /** How float literals are written and read. */
  datatype Floats = Floats(format: u64 -> string, parse: string -> Option<u64>)

  // ---------------------------------------------------------------- literals

  function OperandOf(fl: Floats, t: Token): Option<Operand>
  {
    match t.kind
    case Parameter =>
      var n := Atoi(if t.lexeme != [] && t.lexeme[0] == '$' then t.lexeme[1..] else t.lexeme);
      if n.None? then None else Some(Param(n.value))
    case Number =>
      if '.' in t.lexeme then
        var f := fl.parse(t.lexeme);
        if f.None? then None else Some(Literal(C.Float(f.value)))
      else
        var n := Atoi(t.lexeme);
        if n.None? then None else Some(Literal(C.Int(n.value)))
    case String => Some(Literal(C.Str(TextBytes(t.lexeme))))
    case Boolean => Some(Literal(C.Bool(IsWord(t, "TRUE"))))
    case NullWord => Some(Literal(C.Null))
    case _ => None
  }

  /** The operand can be written as one token. */
  predicate Writable(fl: Floats, o: Operand)
  {
    match o
    case Param(i) => InRange(i)
    case Literal(v) =>
      match v
      case Float(bits) => '.' in fl.format(bits) && fl.parse(fl.format(bits)) == Some(bits)
      case Blob(_) => false
      case NilBlob => false
      case Time(_, _) => false
      case Other(_) => false
      case _ => true
  }

  function OperandToken(fl: Floats, o: Operand): Token
    requires Writable(fl, o)
  {
    match o
    case Param(i) => Token(Parameter, ['$'] + Itoa(i))
    case Literal(v) =>
      match v
      case Null => Token(NullWord, "NULL")
      case Int(n) => Token(Number, Itoa(n))
      case Str(s) => Token(String, Text(s))
      case Bool(b) => Token(Boolean, if b then "true" else "false")
      case Float(bits) => Token(Number, fl.format(bits))
  }

  lemma {:induction false} OperandRoundTrip(fl: Floats, o: Operand)
    requires Writable(fl, o)
    ensures OperandOf(fl, OperandToken(fl, o)) == Some(o)
  {
    match o
    case Param(i) =>
      ItoaRoundTrip(i);
      assert (['$'] + Itoa(i))[1..] == Itoa(i);
    case Literal(v) =>
      match v
      case Int(n) => ItoaRoundTrip(n);
      case Str(s) => TextRoundTrip(s);
      case Bool(b) => assert Upper("true") == "TRUE" && Upper("false")[0] == 'F';
      case _ =>
  }

  // -------------------------------------------------------------- the parser

  ghost predicate EndsInEof(t: seq<Token>)
  {
    t != [] && t[|t| - 1] == Token(EOF, "")
  }

  type Parse = Option<(Condition, nat)>

  /** The next position; the last token is never passed. */
  function Take(t: seq<Token>, p: nat): nat
  {
    if p < |t| - 1 then p + 1 else p
  }

  function OpOf(k: Kind): Option<Op>
  {
    match k
    case Equal => Some(Eq)
    case NotEqual => Some(Ne)
    case Less => Some(Lt)
    case Greater => Some(Gt)
    case LessEqual => Some(Le)
    case GreaterEqual => Some(Ge)
    case _ => None
  }

  /** One test at `p`: a column, then IS [NOT] NULL or an operator and a value. */
  function ParseTest(fl: Floats, t: seq<Token>, p: nat): (r: Parse)
    requires EndsInEof(t) && p < |t|
    ensures r.Some? ==> p < r.value.1 < |t|
  {
    var col := Name(t[p].lexeme);
    var p1 := Take(t, p);
    if IsWord(t[p1], "IS") then
      var p2 := Take(t, p1);
      var negated := IsWord(t[p2], "NOT");
      var p3 := if negated then Take(t, p2) else p2;
      if !IsWord(t[p3], "NULL") then None
      else Some((if negated then IsNotNull(col) else IsNull(col), Take(t, p3)))
    else if OpOf(t[p1].kind).None? then None
    else
      var p2 := Take(t, p1);
      var v := OperandOf(fl, t[p2]);
      if v.None? then None else Some((Test(col, OpOf(t[p1].kind).value, v.value), Take(t, p2)))
  }

  function ParsePrimary(fl: Floats, t: seq<Token>, p: nat): (r: Parse)
    requires EndsInEof(t) && p < |t|
    ensures r.Some? ==> p < r.value.1 < |t|
    decreases |t| - p, 0
  {
    if t[p].kind == LParen then
      var inner := ParseOr(fl, t, p + 1);
      if inner.None? || !IsWord(t[inner.value.1], ")") then None
      else Some((inner.value.0, Take(t, inner.value.1)))
    else ParseTest(fl, t, p)
  }

  function ParseAnd(fl: Floats, t: seq<Token>, p: nat): (r: Parse)
    requires EndsInEof(t) && p < |t|
    ensures r.Some? ==> p < r.value.1 < |t|
    decreases |t| - p, 1
  {
    var first := ParsePrimary(fl, t, p);
    if first.None? then None else AndTail(fl, t, first.value.1, first.value.0)
  }

  /** The AND loop with what has been read so far. */
  function AndTail(fl: Floats, t: seq<Token>, p: nat, left: Condition): (r: Parse)
    requires EndsInEof(t) && p < |t|
    ensures r.Some? ==> p <= r.value.1 < |t|
    decreases |t| - p, 1
  {
    if !IsWord(t[p], "AND") then Some((left, p))
    else
      var right := ParsePrimary(fl, t, Take(t, p));
      if right.None? then None else AndTail(fl, t, right.value.1, And(left, right.value.0))
  }

  function ParseOr(fl: Floats, t: seq<Token>, p: nat): (r: Parse)
    requires EndsInEof(t) && p < |t|
    ensures r.Some? ==> p < r.value.1 < |t|
    decreases |t| - p, 2
  {
    var first := ParseAnd(fl, t, p);
    if first.None? then None else OrTail(fl, t, first.value.1, first.value.0)
  }

  function OrTail(fl: Floats, t: seq<Token>, p: nat, left: Condition): (r: Parse)
    requires EndsInEof(t) && p < |t|
    ensures r.Some? ==> p <= r.value.1 < |t|
    decreases |t| - p, 2
  {
    if !IsWord(t[p], "OR") then Some((left, p))
    else
      var right := ParseAnd(fl, t, Take(t, p));
      if right.None? then None else OrTail(fl, t, right.value.1, Or(left, right.value.0))
  }

  // ------------------------------------------------------------- the printer

  predicate Printable(fl: Floats, c: Condition)
  {
    match c
    case And(l, r) => Printable(fl, l) && Printable(fl, r)
    case Or(l, r) => Printable(fl, l) && Printable(fl, r)
    case Test(_, _, o) => Writable(fl, o)
    case _ => true
  }

  function OpToken(op: Op): Token
  {
    match op
    case Eq => Token(Equal, "=")
    case Ne => Token(NotEqual, "!=")
    case Lt => Token(Less, "<")
    case Gt => Token(Greater, ">")
    case Le => Token(LessEqual, "<=")
    case Ge => Token(GreaterEqual, ">=")
  }

  const OPEN := Token(LParen, "(")
  const CLOSE := Token(RParen, ")")
  const AND_WORD := Token(Keyword, "AND")
  const OR_WORD := Token(Keyword, "OR")

  /** A condition where any condition may stand. */
  function PrintOr(fl: Floats, c: Condition): (s: seq<Token>)
    requires Printable(fl, c)
    decreases c, 5
  {
    if c.Or? then PrintOr(fl, c.left) + [OR_WORD] + PrintAnd(fl, c.right) else PrintAnd(fl, c)
  }

  /** A condition where an OR needs parentheses. */
  function PrintAnd(fl: Floats, c: Condition): (s: seq<Token>)
    requires Printable(fl, c)
    decreases c, if c.Or? then 7 else 4
  {
    if c.And? then PrintAnd(fl, c.left) + [AND_WORD] + PrintPrimary(fl, c.right) else PrintPrimary(fl, c)
  }

  /** A condition where both AND and OR need parentheses. */
  function PrintPrimary(fl: Floats, c: Condition): (s: seq<Token>)
    requires Printable(fl, c)
    decreases c, if c.And? || c.Or? then 6 else 1
  {
    if c.And? || c.Or? then [OPEN] + PrintOr(fl, c) + [CLOSE] else PrintTest(fl, c)
  }

  function PrintTest(fl: Floats, c: Condition): (s: seq<Token>)
    requires Printable(fl, c) && !c.And? && !c.Or?
  {
    match c
    case Test(column, op, o) => [Token(Identifier, column.text), OpToken(op), OperandToken(fl, o)]
    case IsNull(column) => [Token(Identifier, column.text), Token(Identifier, "IS"), Token(NullWord, "NULL")]
    case IsNotNull(column) =>
      [Token(Identifier, column.text), Token(Identifier, "IS"), Token(Identifier, "NOT"), Token(NullWord, "NULL")]
  }

  // -------------------------------------------------------- print, then parse

  lemma WordsSpelled()
    ensures Upper("IS") == "IS" && Upper("NOT") == "NOT" && Upper("NULL") == "NULL"
    ensures Upper("AND") == "AND" && Upper("OR") == "OR" && Upper(")") == ")"
  {
  }

  lemma OpReads(op: Op)
    ensures OpOf(OpToken(op).kind) == Some(op) && !IsWord(OpToken(op), "IS")
  {
    assert Upper(OpToken(op).lexeme)[0] != 'I';
  }

  /** What stands after a printed condition ends it: nothing that would extend it. */
  lemma {:induction false} TestRoundTrip(fl: Floats, c: Condition, a: seq<Token>, rest: seq<Token>)
    requires Printable(fl, c) && !c.And? && !c.Or? && rest != [] && EndsInEof(a + PrintTest(fl, c) + rest)
    ensures ParsePrimary(fl, a + PrintTest(fl, c) + rest, |a|) == Some((c, |a| + |PrintTest(fl, c)|))
  {
    hide OperandOf, OperandToken, Upper;
    var s := PrintTest(fl, c);
    var t := a + s + rest;
    WordsSpelled();
    assert forall i :: 0 <= i < |s| ==> t[|a| + i] == s[i];
    assert s[0].kind == Identifier;
    match c
    case Test(column, op, o) =>
      OpReads(op);
      OperandRoundTrip(fl, o);
      assert t[|a| + 1] == OpToken(op) && t[|a| + 2] == OperandToken(fl, o);
    case IsNull(column) =>
      assert t[|a| + 1].lexeme == "IS" && t[|a| + 2].lexeme == "NULL";
      assert "NULL" != "NOT";
    case IsNotNull(column) =>
      assert t[|a| + 1].lexeme == "IS" && t[|a| + 2].lexeme == "NOT" && t[|a| + 3].lexeme == "NULL";
  }

  lemma {:induction false} PrimaryRoundTrip(fl: Floats, c: Condition, a: seq<Token>, rest: seq<Token>)
    requires Printable(fl, c) && rest != [] && EndsInEof(a + PrintPrimary(fl, c) + rest)
    ensures ParsePrimary(fl, a + PrintPrimary(fl, c) + rest, |a|) == Some((c, |a| + |PrintPrimary(fl, c)|))
    decreases c, if c.And? || c.Or? then 6 else 1
  {
    hide Upper, OperandOf, OperandToken, ParseTest, ParseOr, PrintOr;
    if c.And? || c.Or? {
      var t := a + PrintPrimary(fl, c) + rest;
      assert t == (a + [OPEN]) + PrintOr(fl, c) + ([CLOSE] + rest);
      WordsSpelled();
      OrRoundTrip(fl, c, a + [OPEN], [CLOSE] + rest);
      assert t[|a|] == OPEN;
      assert t[|a| + 1 + |PrintOr(fl, c)|] == CLOSE;
    } else {
      TestRoundTrip(fl, c, a, rest);
    }
  }

  /** Parsing a printed condition reaches the AND loop with that condition on the left. */
  lemma {:induction false} AndRoundTrip(fl: Floats, c: Condition, a: seq<Token>, rest: seq<Token>)
    requires Printable(fl, c) && rest != [] && EndsInEof(a + PrintAnd(fl, c) + rest)
    ensures ParseAnd(fl, a + PrintAnd(fl, c) + rest, |a|)
         == AndTail(fl, a + PrintAnd(fl, c) + rest, |a| + |PrintAnd(fl, c)|, c)
    decreases c, if c.Or? then 7 else 4
  {
    hide Upper, OperandOf, OperandToken, ParsePrimary, ParseAnd, AndTail, PrintPrimary, PrintOr;
    var t := a + PrintAnd(fl, c) + rest;
    if c.And? {
      var l, r := PrintAnd(fl, c.left), PrintPrimary(fl, c.right);
      assert t == a + l + ([AND_WORD] + r + rest);
      AndRoundTrip(fl, c.left, a, [AND_WORD] + r + rest);
      assert t == (a + l + [AND_WORD]) + r + rest;
      PrimaryRoundTrip(fl, c.right, a + l + [AND_WORD], rest);
      WordsSpelled();
      assert t[|a| + |l|] == AND_WORD;
      AndTailStep(fl, t, |a| + |l|, c.left);
    } else {
      PrimaryRoundTrip(fl, c, a, rest);
      FirstThenAnd(fl, t, |a|);
    }
  }

  lemma AndTailStep(fl: Floats, t: seq<Token>, p: nat, left: Condition)
    requires EndsInEof(t) && p < |t| && IsWord(t[p], "AND") && ParsePrimary(fl, t, Take(t, p)).Some?
    ensures var (r, q) := ParsePrimary(fl, t, Take(t, p)).value;
            AndTail(fl, t, p, left) == AndTail(fl, t, q, And(left, r))
  {
  }

  lemma FirstThenAnd(fl: Floats, t: seq<Token>, p: nat)
    requires EndsInEof(t) && p < |t| && ParsePrimary(fl, t, p).Some?
    ensures var (c, q) := ParsePrimary(fl, t, p).value;
            ParseAnd(fl, t, p) == AndTail(fl, t, q, c)
  {
  }

  lemma OrTailStep(fl: Floats, t: seq<Token>, p: nat, left: Condition)
    requires EndsInEof(t) && p < |t| && IsWord(t[p], "OR") && ParseAnd(fl, t, Take(t, p)).Some?
    ensures var (r, q) := ParseAnd(fl, t, Take(t, p)).value;
            OrTail(fl, t, p, left) == OrTail(fl, t, q, Or(left, r))
  {
  }

  lemma FirstThenOr(fl: Floats, t: seq<Token>, p: nat)
    requires EndsInEof(t) && p < |t| && ParseAnd(fl, t, p).Some?
    ensures var (c, q) := ParseAnd(fl, t, p).value;
            ParseOr(fl, t, p) == OrTail(fl, t, q, c)
  {
  }

  lemma OrStops(fl: Floats, t: seq<Token>, p: nat, c: Condition)
    requires EndsInEof(t) && p < |t| && !IsWord(t[p], "OR")
    ensures OrTail(fl, t, p, c) == Some((c, p))
  {
  }

  /** Parsing a printed condition gives it back, unless what follows extends it. */
  lemma {:induction false} OrRoundTrip(fl: Floats, c: Condition, a: seq<Token>, rest: seq<Token>)
    requires Printable(fl, c) && rest != [] && EndsInEof(a + PrintOr(fl, c) + rest)
    requires !IsWord(rest[0], "AND")
    ensures ParseOr(fl, a + PrintOr(fl, c) + rest, |a|)
         == OrTail(fl, a + PrintOr(fl, c) + rest, |a| + |PrintOr(fl, c)|, c)
    ensures !IsWord(rest[0], "OR") ==>
      ParseOr(fl, a + PrintOr(fl, c) + rest, |a|) == Some((c, |a| + |PrintOr(fl, c)|))
    decreases c, 5
  {
    hide Upper, ParseAnd, PrintAnd, OrTail, AndTail, ParseOr;
    var t := a + PrintOr(fl, c) + rest;
    assert t[|a| + |PrintOr(fl, c)|] == rest[0];
    WordsSpelled();
    if c.Or? {
      var l, r := PrintOr(fl, c.left), PrintAnd(fl, c.right);
      assert t == a + l + ([OR_WORD] + r + rest);
      OrRoundTrip(fl, c.left, a, [OR_WORD] + r + rest);
      assert t[|a| + |l|] == OR_WORD;
      assert t == (a + l + [OR_WORD]) + r + rest;
      AndRoundTrip(fl, c.right, a + l + [OR_WORD], rest);
      AndStops(fl, t, |a| + |PrintOr(fl, c)|, c.right);
      OrTailStep(fl, t, |a| + |l|, c.left);
    } else {
      AndRoundTrip(fl, c, a, rest);
      AndStops(fl, t, |a| + |PrintOr(fl, c)|, c);
      FirstThenOr(fl, t, |a|);
    }
    if !IsWord(rest[0], "OR") { OrStops(fl, t, |a| + |PrintOr(fl, c)|, c); }
  }

  lemma AndStops(fl: Floats, t: seq<Token>, p: nat, c: Condition)
    requires EndsInEof(t) && p < |t| && !IsWord(t[p], "AND")
    ensures AndTail(fl, t, p, c) == Some((c, p))
  {
  }

  /** The main law: printing, then parsing, gives the same tree and consumes exactly what was printed. */
  lemma {:induction false} PrintThenParse(fl: Floats, c: Condition, a: seq<Token>, rest: seq<Token>)
    requires Printable(fl, c) && EndsInEof(rest) && !IsWord(rest[0], "AND") && !IsWord(rest[0], "OR")
    ensures EndsInEof(a + PrintOr(fl, c) + rest)
    ensures ParseOr(fl, a + PrintOr(fl, c) + rest, |a|) == Some((c, |a| + |PrintOr(fl, c)|))
  {
    hide ParseOr, PrintOr, Upper;
    var t := a + PrintOr(fl, c) + rest;
    assert t[|t| - 1] == rest[|rest| - 1];
    OrRoundTrip(fl, c, a, rest);
  }

  /** What was printed selects the same rows when read back. */
  lemma {:induction false} ReadBackSelectsTheSame(fl: Floats, show: C.Printer, c: Condition, rest: seq<Token>, row: C.Row)
    requires Printable(fl, c) && EndsInEof(rest) && !IsWord(rest[0], "AND") && !IsWord(rest[0], "OR")
    ensures EndsInEof(PrintOr(fl, c) + rest) && ParseOr(fl, PrintOr(fl, c) + rest, 0).Some?
    ensures Match(show, ParseOr(fl, PrintOr(fl, c) + rest, 0).value.0, row) == Match(show, c, row)
  {
    hide ParseOr, PrintOr, Upper, Match;
    PrintThenParse(fl, c, [], rest);
    assert [] + PrintOr(fl, c) + rest == PrintOr(fl, c) + rest;
  }

  // ----------------------------------------------- no shorter text would do

  function WidthOr(c: Condition): nat
    decreases c, 5
  {
    if c.Or? then WidthOr(c.left) + 1 + WidthAnd(c.right) else WidthAnd(c)
  }

  function WidthAnd(c: Condition): nat
    decreases c, if c.Or? then 7 else 4
  {
    if c.And? then WidthAnd(c.left) + 1 + WidthPrimary(c.right) else WidthPrimary(c)
  }

  function WidthPrimary(c: Condition): nat
    decreases c, if c.And? || c.Or? then 6 else 1
  {
    if c.And? || c.Or? then WidthOr(c) + 2 else if c.IsNotNull? then 4 else 3
  }

  lemma {:induction false} PrintedWidth(fl: Floats, c: Condition)
    requires Printable(fl, c)
    ensures |PrintOr(fl, c)| == WidthOr(c) && |PrintAnd(fl, c)| == WidthAnd(c) && |PrintPrimary(fl, c)| == WidthPrimary(c)
  {
    hide OperandToken;
    if c.And? || c.Or? {
      PrintedWidth(fl, c.left);
      PrintedWidth(fl, c.right);
    } else {
      assert PrintPrimary(fl, c) == PrintTest(fl, c);
    }
    assert !c.And? && !c.Or? ==> |PrintPrimary(fl, c)| == WidthPrimary(c);
    assert c.Or? ==> |PrintOr(fl, c)| == WidthOr(c);
    assert c.And? ==> |PrintAnd(fl, c)| == WidthAnd(c);
  }

  lemma WidthsOrdered(c: Condition)
    ensures WidthOr(c) <= WidthAnd(c) <= WidthPrimary(c) <= WidthOr(c) + 2
  {
  }

  lemma {:induction false} TestWidth(fl: Floats, t: seq<Token>, p: nat)
    requires EndsInEof(t) && p < |t| && ParseTest(fl, t, p).Some?
    ensures var (c, q) := ParseTest(fl, t, p).value;
            WidthPrimary(c) <= q - p
  {
    assert Upper("") == "";
  }

  lemma {:induction false} PrimaryWidth(fl: Floats, t: seq<Token>, p: nat)
    requires EndsInEof(t) && p < |t| && ParsePrimary(fl, t, p).Some?
    ensures var (c, q) := ParsePrimary(fl, t, p).value;
            WidthPrimary(c) <= q - p
    decreases |t| - p, 0
  {
    hide ParseTest, ParseOr, WidthOr, WidthAnd, WidthPrimary;
    if t[p].kind == LParen {
      OrWidth(fl, t, p + 1);
      WidthsOrdered(ParsePrimary(fl, t, p).value.0);
      assert Upper("") == "";
    } else {
      TestWidth(fl, t, p);
    }
  }

  lemma {:induction false} AndTailWidth(fl: Floats, t: seq<Token>, p: nat, left: Condition, start: nat)
    requires EndsInEof(t) && start <= p < |t| && AndTail(fl, t, p, left).Some? && WidthAnd(left) <= p - start
    ensures var (c, q) := AndTail(fl, t, p, left).value;
            WidthAnd(c) <= q - start
    decreases |t| - p, 1
  {
    hide ParsePrimary, Upper;
    if IsWord(t[p], "AND") {
      NotLast(t, p, "AND");
      PrimaryWidth(fl, t, p + 1);
      var (r, q) := ParsePrimary(fl, t, p + 1).value;
      AndTailWidth(fl, t, q, And(left, r), start);
    }
  }

  lemma NotLast(t: seq<Token>, p: nat, word: string)
    requires EndsInEof(t) && p < |t| && IsWord(t[p], word) && word != ""
    ensures p < |t| - 1
  {
    assert Upper("") == "";
  }

  lemma {:induction false} AndWidth(fl: Floats, t: seq<Token>, p: nat)
    requires EndsInEof(t) && p < |t| && ParseAnd(fl, t, p).Some?
    ensures var (c, q) := ParseAnd(fl, t, p).value;
            WidthAnd(c) <= q - p
    decreases |t| - p, 1
  {
    hide ParsePrimary, AndTail, WidthAnd, WidthOr, WidthPrimary;
    PrimaryWidth(fl, t, p);
    var (c, q) := ParsePrimary(fl, t, p).value;
    WidthsOrdered(c);
    AndTailWidth(fl, t, q, c, p);
  }

  lemma {:induction false} OrTailWidth(fl: Floats, t: seq<Token>, p: nat, left: Condition, start: nat)
    requires EndsInEof(t) && start <= p < |t| && OrTail(fl, t, p, left).Some? && WidthOr(left) <= p - start
    ensures var (c, q) := OrTail(fl, t, p, left).value;
            WidthOr(c) <= q - start
    decreases |t| - p, 2
  {
    hide ParseAnd, Upper;
    if IsWord(t[p], "OR") {
      NotLast(t, p, "OR");
      AndWidth(fl, t, p + 1);
      var (r, q) := ParseAnd(fl, t, p + 1).value;
      OrTailWidth(fl, t, q, Or(left, r), start);
    }
  }

  lemma {:induction false} OrWidth(fl: Floats, t: seq<Token>, p: nat)
    requires EndsInEof(t) && p < |t| && ParseOr(fl, t, p).Some?
    ensures var (c, q) := ParseOr(fl, t, p).value;
            WidthOr(c) <= q - p
    decreases |t| - p, 2
  {
    hide ParseAnd, OrTail, WidthAnd, WidthOr, WidthPrimary;
    AndWidth(fl, t, p);
    var (c, q) := ParseAnd(fl, t, p).value;
    WidthsOrdered(c);
    OrTailWidth(fl, t, q, c, p);
  }

  /** The printed form is a shortest text for its tree: no parenthesis in it can be spared. */
  lemma {:induction false} PrintedIsShortest(fl: Floats, t: seq<Token>, p: nat)
    requires EndsInEof(t) && p < |t| && ParseOr(fl, t, p).Some? && Printable(fl, ParseOr(fl, t, p).value.0)
    ensures var (c, q) := ParseOr(fl, t, p).value;
            |PrintOr(fl, c)| <= q - p
  {
    hide ParseOr, WidthOr, PrintOr;
    OrWidth(fl, t, p);
    PrintedWidth(fl, ParseOr(fl, t, p).value.0);
  }

  // -------------------------------------------------- the parser as it moves

  class Parser {
    const t: seq<Token>
    const fl: Floats
    var p: nat

    ghost predicate Valid()
      reads this
    {
      EndsInEof(t) && p < |t|
    }

    /** The outcome is that of the grammar function, and the position has moved past what it read. */
    ghost predicate Done(spec: Parse, r: Option<Condition>)
      reads this
    {
      if spec.None? then r.None? else r == Some(spec.value.0) && p == spec.value.1
    }

    constructor (t: seq<Token>, fl: Floats)
      requires EndsInEof(t)
      ensures Valid() && this.t == t && this.fl == fl && p == 0
    {
      this.t, this.fl, this.p := t, fl, 0;
    }

    method TakeToken()
      requires Valid()
      modifies this
      ensures Valid() && p == Take(t, old(p))
    {
      if p < |t| - 1 { p := p + 1; }
    }

    method ReadOr() returns (r: Option<Condition>)
      requires Valid()
      modifies this
      ensures Valid() && p >= old(p) && Done(ParseOr(fl, t, old(p)), r)
      decreases |t| - p, 2
    {
      r := ReadAnd();
      if r.None? { return; }
      var left := r.value;
      while IsWord(t[p], "OR")
        invariant Valid() && p > old(p)
        invariant OrTail(fl, t, p, left) == ParseOr(fl, t, old(p))
        decreases |t| - p
      {
        NotLast(t, p, "OR");
        TakeToken();
        r := ReadAnd();
        if r.None? { return; }
        left := Or(left, r.value);
      }
      r := Some(left);
    }

    method ReadAnd() returns (r: Option<Condition>)
      requires Valid()
      modifies this
      ensures Valid() && p >= old(p) && Done(ParseAnd(fl, t, old(p)), r)
      decreases |t| - p, 1
    {
      r := ReadPrimary();
      if r.None? { return; }
      var left := r.value;
      while IsWord(t[p], "AND")
        invariant Valid() && p > old(p)
        invariant AndTail(fl, t, p, left) == ParseAnd(fl, t, old(p))
        decreases |t| - p
      {
        NotLast(t, p, "AND");
        TakeToken();
        r := ReadPrimary();
        if r.None? { return; }
        left := And(left, r.value);
      }
      r := Some(left);
    }

    method ReadPrimary() returns (r: Option<Condition>)
      requires Valid()
      modifies this
      ensures Valid() && p >= old(p) && Done(ParsePrimary(fl, t, old(p)), r)
      decreases |t| - p, 0
    {
      hide OperandOf, Upper;
      if t[p].kind == LParen {
        TakeToken();
        r := ReadOr();
        if r.None? { return; }
        if !IsWord(t[p], ")") { return None; }
        TakeToken();
        return;
      }
      var col := Name(t[p].lexeme);
      TakeToken();
      if IsWord(t[p], "IS") {
        TakeToken();
        var negated := false;
        if IsWord(t[p], "NOT") {
          negated := true;
          TakeToken();
        }
        if !IsWord(t[p], "NULL") { return None; }
        TakeToken();
        if negated { return Some(IsNotNull(col)); }
        return Some(IsNull(col));
      }
      var op := OpOf(t[p].kind);
      if op.None? { return None; }
      TakeToken();
      var v := OperandOf(fl, t[p]);
      if v.None? { return None; }
      TakeToken();
      return Some(Test(col, op.value, v.value));
    }
  }
}
