/** The lexer and the statement splitter. */
module Lexer {
  import opened Common
  import opened Tokens

  // -------------------------------------------------------------- characters

  /** `unicode.IsSpace` on the first 256 code points. */
  predicate IsSpace(c: char)
  {
    c == ' ' || 9 <= c as int <= 13 || c as int == 0x85 || c as int == 0xA0
  }

  /** `unicode.IsLetter` on the first 256 code points. */
  predicate IsLetter(c: char)
  {
    || 'a' <= c <= 'z' || 'A' <= c <= 'Z'
    || c as int in {0xAA, 0xB5, 0xBA}
    || (0xC0 <= c as int <= 0xFF && c as int != 0xD7 && c as int != 0xF7)
  }

  predicate IsNumberChar(c: char)
  {
    IsDigit(c) || c == '.'
  }

  predicate IsWordChar(c: char)
  {
    IsLetter(c) || IsDigit(c) || c == '_' || c == '.'
  }

  predicate IsQuote(c: char)
  {
    c == '\'' || c == '"'
  }

  // ------------------------------------------------------------------- words

  const KEYWORDS: set<string> := {
    "SELECT", "FROM", "WHERE", "INSERT", "INTO", "VALUES", "SHOW", "TABLES", "LIST", "CREATE", "TABLE", "ALTER",
    "ADD", "COLUMN", "DROP", "RENAME", "TO", "UPDATE", "SET", "DELETE", "AND", "OR", "EXPLAIN", "ORDER", "BY",
    "ASC", "DESC", "LIMIT", "OFFSET", "GROUP", "COUNT", "SUM", "AVG", "MIN", "MAX", "BEGIN", "COMMIT", "ROLLBACK"
  }

  /** Which words parse as floats. */
  type FloatTest = string -> bool

  function WordKind(isFloat: FloatTest, word: string): Kind
  {
    var upper := Upper(word);
    if Atoi(word).Some? || isFloat(word) then Number
    else if upper == "NULL" then NullWord
    else if upper == "TRUE" || upper == "FALSE" then Boolean
    else if upper in KEYWORDS then Keyword
    else Identifier
  }

  // ---------------------------------------------------------------- one token

  /** How many leading characters satisfy the test. */
  function Run(p: char -> bool, s: string): (n: nat)
    ensures n <= |s| && (forall i :: 0 <= i < n ==> p(s[i])) && (n < |s| ==> !p(s[n]))
  {
    if s == [] || !p(s[0]) then 0 else 1 + Run(p, s[1..])
  }

  /** The text up to the closing quote, with escapes undone, and how much of `s` it takes with the quote. */
  function StringBody(s: string, quote: char): (r: Option<(string, nat)>)
    ensures r.Some? ==> 0 < r.value.1 <= |s|
  {
    if s == [] then None
    else if s[0] == quote then Some(("", 1))
    else
      var k := if s[0] == '\\' && |s| > 1 then 1 else 0;
      var rest := StringBody(s[k + 1..], quote);
      if rest.None? then None else Some(([s[k]] + rest.value.0, k + 1 + rest.value.1))
  }

  /** White space, a token, or an error, and how much of the text it takes. */
  datatype Outcome = Skip(size: nat) | Emit(token: Token, size: nat) | Bad

  function Step(isFloat: FloatTest, s: string, params: nat): (r: Outcome)
    requires s != []
    ensures !r.Bad? ==> 0 < r.size <= |s|
  {
    var c := s[0];
    if IsSpace(c) then Skip(1)
    else if c == '-' && |s| > 1 && IsNumberChar(s[1]) then
      var n := Run(IsNumberChar, s[1..]);
      Emit(Token(Number, s[..n + 1]), n + 1)
    else if c == '?' then Emit(Token(Parameter, ['$'] + Itoa(params)), 1)
    else if c == ',' then Emit(Token(Comma, ","), 1)
    else if c == '(' then Emit(Token(LParen, "("), 1)
    else if c == ')' then Emit(Token(RParen, ")"), 1)
    else if c == '=' then Emit(Token(Equal, "="), 1)
    else if c == '!' then if |s| > 1 && s[1] == '=' then Emit(Token(NotEqual, "!="), 2) else Bad
    else if c == '<' then
      if |s| > 1 && s[1] == '=' then Emit(Token(LessEqual, "<="), 2) else Emit(Token(Less, "<"), 1)
    else if c == '>' then
      if |s| > 1 && s[1] == '=' then Emit(Token(GreaterEqual, ">="), 2) else Emit(Token(Greater, ">"), 1)
    else if c == ';' then Emit(Token(Semicolon, ";"), 1)
    else if c == '*' then Emit(Token(Identifier, "*"), 1)
    else if IsQuote(c) then
      var body := StringBody(s[1..], c);
      if body.None? then Bad else Emit(Token(String, body.value.0), 1 + body.value.1)
    else
      var n := Run(IsWordChar, s);
      if n == 0 then Bad else Emit(Token(WordKind(isFloat, s[..n]), s[..n]), n)
  }

  /** All tokens of the text, before the end mark. */
  function Lexed(isFloat: FloatTest, s: string, params: nat): Option<seq<Token>>
    decreases |s|
  {
    if s == [] then Some([])
    else
      match Step(isFloat, s, params)
      case Bad => None
      case Skip(n) => Lexed(isFloat, s[n..], params)
      case Emit(t, n) =>
        var rest := Lexed(isFloat, s[n..], if t.kind == Parameter then params + 1 else params);
        if rest.None? then None else Some([t] + rest.value)
  }

  /** Tokens, then the outcome of what follows. */
  function Then(ts: seq<Token>, r: Option<seq<Token>>): Option<seq<Token>>
  {
    if r.None? then None else Some(ts + r.value)
  }

  // ------------------------------------------------------------ the splitter

  /** The first semicolon outside quotes, or the length of the text. */
  function SegmentEnd(s: string, quote: Option<char>): (n: nat)
    ensures n <= |s| && (n < |s| ==> s[n] == ';')
    decreases |s|
  {
    if s == [] then 0
    else if quote.Some? then 1 + SegmentEnd(s[1..], if s[0] == quote.value then None else quote)
    else if s[0] == ';' then 0
    else 1 + SegmentEnd(s[1..], if IsQuote(s[0]) then Some(s[0]) else None)
  }

  /** The stretches of text between semicolons outside quotes. */
  function Segments(s: string): seq<string>
    decreases |s|
  {
    var n := SegmentEnd(s, None);
    if n == |s| then [s] else [s[..n]] + Segments(s[n + 1..])
  }

  function TrimLeft(s: string): (r: string)
    ensures |r| <= |s|
  {
    if s != [] && IsSpace(s[0]) then TrimLeft(s[1..]) else s
  }

  function TrimRight(s: string): (r: string)
    ensures |r| <= |s|
  {
    if s != [] && IsSpace(s[|s| - 1]) then TrimRight(s[..|s| - 1]) else s
  }

  function Trim(s: string): string
  {
    TrimRight(TrimLeft(s))
  }

  function NonBlank(segs: seq<string>): seq<string>
  {
    if segs == [] then []
    else
      var x := Trim(segs[0]);
      (if x != "" then [x] else []) + NonBlank(segs[1..])
  }

  /** The statements of a request. */
  function Statements(s: string): seq<string>
  {
    NonBlank(Segments(s))
  }

  // ----------------------------------------------------------------- methods

  function CountParameters(ts: seq<Token>): nat
  {
    if ts == [] then 0
    else CountParameters(ts[..|ts| - 1]) + if ts[|ts| - 1].kind == Parameter then 1 else 0
  }

  method ScanRun(p: char -> bool, input: string, start: nat) returns (i: nat)
    requires start <= |input|
    ensures i == start + Run(p, input[start..])
  {
    i := start;
    while i < |input| && p(input[i])
      invariant start <= i <= |input|
      invariant start + Run(p, input[start..]) == i + Run(p, input[i..])
    {
      assert input[i..][1..] == input[i + 1..];
      i := i + 1;
    }
  }

  /** Text already read, before the outcome of the rest. */
  function After(b: string, n: nat, rest: Option<(string, nat)>): Option<(string, nat)>
  {
    if rest.None? then None else Some((b + rest.value.0, n + rest.value.1))
  }

  lemma {:induction false} BodyNext(input: string, i: nat, quote: char, b: string, n: nat)
    requires i < |input| && input[i] != quote
    ensures var k := if input[i] == '\\' && i + 1 < |input| then 1 else 0;
            After(b, n, StringBody(input[i..], quote))
              == After(b + [input[i + k]], n + k + 1, StringBody(input[i + k + 1..], quote))
  {
    var k := if input[i] == '\\' && i + 1 < |input| then 1 else 0;
    assert input[i..][k + 1..] == input[i + k + 1..];
    var rest := StringBody(input[i + k + 1..], quote);
    if rest.Some? { assert b + ([input[i + k]] + rest.value.0) == b + [input[i + k]] + rest.value.0; }
  }

  lemma BodyEnds(input: string, i: nat, quote: char, b: string, n: nat)
    requires i <= |input| && (i == |input| || input[i] == quote)
    ensures After(b, n, StringBody(input[i..], quote)) == if i == |input| then None else Some((b, n + 1))
  {
    assert b + "" == b;
  }

  lemma NothingRead(r: Option<(string, nat)>)
    ensures After("", 0, r) == r
  {
    if r.Some? { assert "" + r.value.0 == r.value.0; }
  }

  method ScanString(input: string, start: nat, quote: char) returns (r: Option<string>, i: nat)
    requires start <= |input|
    ensures var body := StringBody(input[start..], quote);
            if body.None? then r.None? else r == Some(body.value.0) && i == start + body.value.1
  {
    hide StringBody, After;
    i := start;
    var b := "";
    NothingRead(StringBody(input[start..], quote));
    while i < |input| && input[i] != quote
      invariant start <= i <= |input|
      invariant StringBody(input[start..], quote) == After(b, i - start, StringBody(input[i..], quote))
    {
      BodyNext(input, i, quote, b, i - start);
      if input[i] == '\\' && i + 1 < |input| {
        i := i + 1;
        b := b + [input[i]];
      } else {
        b := b + [input[i]];
      }
      i := i + 1;
    }
    BodyEnds(input, i, quote, b, i - start);
    if i >= |input| { return None, i; }
    return Some(b), i + 1;
  }

  /** The token or white space at `i`, as the lexer's loop body reads it. */
  method NextToken(isFloat: FloatTest, input: string, i: nat, params: nat) returns (o: Outcome)
    requires i < |input|
    ensures o == Step(isFloat, input[i..], params)
  {
    hide Run, StringBody, WordKind, IsWordChar, IsNumberChar, IsSpace, Itoa;
    ghost var s := input[i..];
    assert s[1..] == input[i + 1..];
    var c := input[i];
    if IsSpace(c) { return Skip(1); }
    if c == '-' && i + 1 < |input| && IsNumberChar(input[i + 1]) {
      var j := ScanRun(IsNumberChar, input, i + 1);
      assert input[i..j] == s[..j - i];
      return Emit(Token(Number, input[i..j]), j - i);
    }
    if c == '?' { return Emit(Token(Parameter, ['$'] + Itoa(params)), 1); }
    match c
    case ',' => return Emit(Token(Comma, ","), 1);
    case '(' => return Emit(Token(LParen, "("), 1);
    case ')' => return Emit(Token(RParen, ")"), 1);
    case '=' => return Emit(Token(Equal, "="), 1);
    case '!' =>
      if i + 1 < |input| && input[i + 1] == '=' { return Emit(Token(NotEqual, "!="), 2); }
      return Bad;
    case '<' =>
      if i + 1 < |input| && input[i + 1] == '=' { return Emit(Token(LessEqual, "<="), 2); }
      return Emit(Token(Less, "<"), 1);
    case '>' =>
      if i + 1 < |input| && input[i + 1] == '=' { return Emit(Token(GreaterEqual, ">="), 2); }
      return Emit(Token(Greater, ">"), 1);
    case ';' => return Emit(Token(Semicolon, ";"), 1);
    case '*' => return Emit(Token(Identifier, "*"), 1);
    case _ =>
      if IsQuote(c) {
        var text, j := ScanString(input, i + 1, c);
        if text.None? { return Bad; }
        return Emit(Token(String, text.value), j - i);
      }
      var j := ScanRun(IsWordChar, input, i);
      if j == i { return Bad; }
      var word := input[i..j];
      assert word == s[..j - i];
      return Emit(Token(WordKind(isFloat, word), word), j - i);
  }

  lemma {:induction false} LexedNext(isFloat: FloatTest, input: string, i: nat, out: seq<Token>)
    requires i < |input|
    ensures var o := Step(isFloat, input[i..], CountParameters(out));
            var now := Then(out, Lexed(isFloat, input[i..], CountParameters(out)));
            match o
            case Bad => now == None
            case Skip(n) => now == Then(out, Lexed(isFloat, input[i + n..], CountParameters(out)))
            case Emit(t, n) => now == Then(out + [t], Lexed(isFloat, input[i + n..], CountParameters(out + [t])))
  {
    hide Step;
    var o := Step(isFloat, input[i..], CountParameters(out));
    if !o.Bad? { assert input[i..][o.size..] == input[i + o.size..]; }
    if o.Emit? {
      assert (out + [o.token])[..|out|] == out;
      var rest := Lexed(isFloat, input[i + o.size..], CountParameters(out + [o.token]));
      if rest.Some? { assert out + ([o.token] + rest.value) == out + [o.token] + rest.value; }
    }
  }

  /** All tokens and the end mark, or an error. */
  method Lex(isFloat: FloatTest, input: string) returns (r: Option<seq<Token>>)
    ensures var ts := Lexed(isFloat, input, 0);
            r == if ts.None? then None else Some(ts.value + [Token(EOF, "")])
  {
    hide Step, Lexed;
    var out: seq<Token> := [];
    var i := 0;
    NothingOut(isFloat, input);
    while i < |input|
      invariant i <= |input|
      invariant Lexed(isFloat, input, 0) == Then(out, Lexed(isFloat, input[i..], CountParameters(out)))
    {
      LexedNext(isFloat, input, i, out);
      var o := NextToken(isFloat, input, i, CountParameters(out));
      match o
      case Bad => return None;
      case Skip(n) => i := i + n;
      case Emit(t, n) =>
        out := out + [t];
        i := i + n;
    }
    NothingLeft(isFloat, CountParameters(out));
    assert input[i..] == "" && out + [] == out;
    return Some(out + [Token(EOF, "")]);
  }

  lemma NothingOut(isFloat: FloatTest, input: string)
    ensures Lexed(isFloat, input, 0) == Then([], Lexed(isFloat, input[0..], CountParameters([])))
  {
    assert input[0..] == input;
    if Lexed(isFloat, input, 0).Some? { assert [] + Lexed(isFloat, input, 0).value == Lexed(isFloat, input, 0).value; }
  }

  lemma NothingLeft(isFloat: FloatTest, params: nat)
    ensures Lexed(isFloat, "", params) == Some([])
  {
  }

  /** The statements of a request, scanning once with a quote flag. */
  method SplitStatements(s: string) returns (out: seq<string>)
    ensures out == Statements(s)
  {
    hide Trim, IsQuote, SegmentEnd, Segments, NonBlank;
    out := [];
    var start := 0;
    var quote: Option<char> := None;
    var i := 0;
    assert s[0..] == s && [] + Statements(s) == Statements(s);
    while i < |s|
      invariant start <= i <= |s|
      invariant Statements(s) == out + NonBlank(Segments(s[start..]))
      invariant SegmentEnd(s[start..], None) == i - start + SegmentEnd(s[i..], quote)
    {
      SegmentNext(s, i, quote);
      if quote.Some? {
        if s[i] == quote.value { quote := None; }
      } else if IsQuote(s[i]) {
        quote := Some(s[i]);
      } else if s[i] == ';' {
        SplitHere(s, start, i, out);
        var x := Trim(s[start..i]);
        if x != "" { out := out + [x]; }
        start := i + 1;
      }
      i := i + 1;
    }
    NoMore(s, quote);
    SplitEnd(s, start, out);
    var x := Trim(s[start..]);
    if x != "" { out := out + [x]; }
  }

  lemma NoMore(s: string, quote: Option<char>)
    ensures SegmentEnd(s[|s|..], quote) == 0
  {
  }

  lemma {:induction false} SegmentNext(s: string, i: nat, quote: Option<char>)
    requires i < |s|
    ensures SegmentEnd(s[i..], quote) ==
            if quote.Some? then 1 + SegmentEnd(s[i + 1..], if s[i] == quote.value then None else quote)
            else if IsQuote(s[i]) then 1 + SegmentEnd(s[i + 1..], Some(s[i]))
            else if s[i] == ';' then 0
            else 1 + SegmentEnd(s[i + 1..], None)
  {
    assert s[i..][1..] == s[i + 1..];
  }

  lemma {:induction false} SplitHere(s: string, start: nat, i: nat, out: seq<string>)
    requires start <= i < |s| && SegmentEnd(s[start..], None) == i - start
    ensures var x := Trim(s[start..i]);
            out + NonBlank(Segments(s[start..])) == (if x != "" then out + [x] else out) + NonBlank(Segments(s[i + 1..]))
  {
    hide Trim, SegmentEnd;
    var t := s[start..];
    assert t[..i - start] == s[start..i] && t[i - start + 1..] == s[i + 1..];
    var tail := Segments(s[i + 1..]);
    assert Segments(t) == [s[start..i]] + tail;
    assert ([s[start..i]] + tail)[1..] == tail;
    var x := Trim(s[start..i]);
    assert out + ((if x != "" then [x] else []) + NonBlank(tail)) == (if x != "" then out + [x] else out) + NonBlank(tail);
  }

  lemma {:induction false} SplitEnd(s: string, start: nat, out: seq<string>)
    requires start <= |s| && SegmentEnd(s[start..], None) == |s| - start
    ensures var x := Trim(s[start..]);
            out + NonBlank(Segments(s[start..])) == if x != "" then out + [x] else out
  {
    hide Trim, SegmentEnd;
    assert Segments(s[start..]) == [s[start..]];
    assert NonBlank([s[start..]][1..]) == [];
  }
}
