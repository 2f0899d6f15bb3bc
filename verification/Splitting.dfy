/** How splitting a text into statements commutes with lexing it. */
module Splitting {
  import opened Common
  import opened Tokens
  import opened Lexer

  // --------------------------------------------- tokens without their numbers

  /** A parameter token whatever its number. */
  function Bare(t: Token): Token
  {
    if t.kind == Parameter then Token(Parameter, "?") else t
  }

  function BareAll(ts: seq<Token>): (r: seq<Token>)
    ensures |r| == |ts|
  {
    if ts == [] then [] else [Bare(ts[0])] + BareAll(ts[1..])
  }

  /** The tokens of a text, parameters unnumbered. */
  function Read(isFloat: FloatTest, s: string): Option<seq<Token>>
    decreases |s|
  {
    if s == [] then Some([])
    else
      match Step(isFloat, s, 0)
      case Bad => None
      case Skip(n) => Read(isFloat, s[n..])
      case Emit(t, n) => Then([Bare(t)], Read(isFloat, s[n..]))
  }

  lemma {:induction false} StepNumber(isFloat: FloatTest, s: string, params: nat)
    requires s != []
    ensures var o, p := Step(isFloat, s, 0), Step(isFloat, s, params);
            if o.Emit? then p.Emit? && p.size == o.size && Bare(p.token) == Bare(o.token) else p == o
  {
    hide Run, StringBody, WordKind, IsLetter, IsDigit, IsSpace, Itoa;
  }

  /** Numbering aside, reading a text is lexing it, whatever was numbered before. */
  lemma {:induction false} ReadIsLexed(isFloat: FloatTest, s: string, params: nat)
    ensures var ts := Lexed(isFloat, s, params);
            Read(isFloat, s) == if ts.None? then None else Some(BareAll(ts.value))
    decreases |s|
  {
    hide Step;
    if s != [] {
      StepNumber(isFloat, s, params);
      match Step(isFloat, s, params)
      case Bad =>
      case Skip(n) => ReadIsLexed(isFloat, s[n..], params);
      case Emit(t, n) =>
        var next := if t.kind == Parameter then params + 1 else params;
        ReadIsLexed(isFloat, s[n..], next);
        var rest := Lexed(isFloat, s[n..], next);
        if rest.Some? { assert ([t] + rest.value)[1..] == rest.value; }
    }
  }

  // ------------------------------------------------------ inside and outside

  /** Where the lexer is: outside strings, or in one opened by the quote. */
  datatype Mode = Outside | Inside(quote: char)

  /** A text that starts in the mode ends outside strings. */
  predicate EndsOutside(s: string, mode: Mode)
    decreases |s|
  {
    if s == [] then mode.Outside?
    else if mode.Outside? then EndsOutside(s[1..], if IsQuote(s[0]) then Inside(s[0]) else Outside)
    else if s[0] == mode.quote then EndsOutside(s[1..], Outside)
    else if s[0] == '\\' && |s| > 1 then EndsOutside(s[2..], mode)
    else EndsOutside(s[1..], mode)
  }

  lemma {:induction false} PlainOutside(s: string, k: nat)
    requires k <= |s| && forall i :: 0 <= i < k ==> !IsQuote(s[i])
    ensures EndsOutside(s, Outside) == EndsOutside(s[k..], Outside)
  {
    if k > 0 {
      PlainOutside(s[1..], k - 1);
      assert s[1..][k - 1..] == s[k..];
    }
  }

  /** A string body leads back outside. */
  lemma {:induction false} BodyOutside(s: string, quote: char)
    ensures StringBody(s, quote).None? ==> !EndsOutside(s, Inside(quote))
    ensures StringBody(s, quote).Some? ==> EndsOutside(s, Inside(quote)) == EndsOutside(s[StringBody(s, quote).value.1..], Outside)
    decreases |s|
  {
    if s != [] && s[0] != quote {
      var k := if s[0] == '\\' && |s| > 1 then 1 else 0;
      BodyOutside(s[k + 1..], quote);
      if StringBody(s[k + 1..], quote).Some? {
        var n := StringBody(s[k + 1..], quote).value.1;
        assert s[k + 1..][n..] == s[k + 1 + n..];
      }
    }
  }

  lemma {:induction false} BodyAppend(a: string, r: string, quote: char)
    requires StringBody(a, quote).Some?
    ensures StringBody(a + r, quote) == StringBody(a, quote)
    decreases |a|
  {
    if a[0] != quote {
      var k := if a[0] == '\\' && |a| > 1 then 1 else 0;
      assert StringBody([], quote).None?;
      assert |a| > k + 1;
      assert (a + r)[k + 1..] == a[k + 1..] + r;
      BodyAppend(a[k + 1..], r, quote);
    }
  }

  /** What ends a word, a number and an operator. */
  predicate Delimits(r: string)
  {
    r == [] || r[0] == ';' || IsSpace(r[0])
  }

  lemma {:induction false} RunAppend(p: char -> bool, a: string, r: string)
    requires r == [] || !p(r[0])
    ensures Run(p, a + r) == Run(p, a)
  {
    if a == [] {
      assert a + r == r;
    } else {
      assert (a + r)[1..] == a[1..] + r;
      RunAppend(p, a[1..], r);
    }
  }

  // --------------------------------------------------------- lexing in parts

  /** A step leads from outside to outside, or fails inside a string that does not end. */
  lemma {:induction false} StepOutside(isFloat: FloatTest, a: string)
    requires a != []
    ensures var o := Step(isFloat, a, 0);
            if o.Bad? then IsQuote(a[0]) ==> !EndsOutside(a, Outside) else EndsOutside(a, Outside) == EndsOutside(a[o.size..], Outside)
  {
    hide Run, StringBody, WordKind, EndsOutside, IsLetter, IsDigit, IsSpace;
    var o := Step(isFloat, a, 0);
    if IsQuote(a[0]) {
      OpenQuote(a);
      BodyOutside(a[1..], a[0]);
      NotSpace();
      if !o.Bad? { assert a[1..][o.size - 1..] == a[o.size..]; }
    } else if !o.Bad? {
      NoQuotesInWords();
      PlainOutside(a, o.size);
    }
  }

  lemma OpenQuote(a: string)
    requires a != [] && IsQuote(a[0])
    ensures EndsOutside(a, Outside) == EndsOutside(a[1..], Inside(a[0]))
  {
  }

  lemma NotSpace()
    ensures !IsSpace('\'') && !IsSpace('"')
  {
  }

  lemma NoQuotesInWords()
    ensures forall c :: IsWordChar(c) || IsNumberChar(c) || IsSpace(c) ==> !IsQuote(c) && c != ';' && c != '=' && c != '\\'
  {
  }

  /** A step within text that ends outside strings does not look past a delimiter. */
  lemma {:induction false} StepAppend(isFloat: FloatTest, a: string, r: string)
    requires a != [] && EndsOutside(a, Outside) && Delimits(r)
    ensures Step(isFloat, a + r, 0) == Step(isFloat, a, 0)
  {
    hide Step, Run, StringBody, WordKind, EndsOutside, IsWordChar, IsNumberChar, IsSpace, Delimits;
    DelimitersApart(r);
    if IsQuote(a[0]) {
      QuotedAppend(isFloat, a, r);
    } else if a[0] == '-' {
      NumberAppend(isFloat, a, r);
    } else if IsSymbol(a[0]) || IsSpace(a[0]) {
      SymbolAppend(isFloat, a, r);
    } else {
      WordAppend(isFloat, a, r);
    }
  }

  /** The characters that are tokens of their own, or begin one of two characters. */
  predicate IsSymbol(c: char)
  {
    c in ['?', ',', '(', ')', '=', '!', '<', '>', ';', '*']
  }

  lemma {:induction false} QuotedAppend(isFloat: FloatTest, a: string, r: string)
    requires a != [] && IsQuote(a[0]) && EndsOutside(a, Outside)
    ensures Step(isFloat, a + r, 0) == Step(isFloat, a, 0)
  {
    hide Run, StringBody, WordKind, EndsOutside, IsWordChar, IsNumberChar, IsSpace, Itoa;
    assert (a + r)[0] == a[0] && (a + r)[1..] == a[1..] + r;
    OpenQuote(a);
    BodyOutside(a[1..], a[0]);
    BodyAppend(a[1..], r, a[0]);
    NotSpace();
  }

  lemma {:induction false} NumberAppend(isFloat: FloatTest, a: string, r: string)
    requires a != [] && a[0] == '-' && (r != [] ==> !IsWordChar(r[0]) && !IsNumberChar(r[0]))
    ensures Step(isFloat, a + r, 0) == Step(isFloat, a, 0)
  {
    hide Run, StringBody, WordKind, IsWordChar, IsNumberChar, IsSpace, Itoa;
    var t := a + r;
    assert t[0] == a[0] && t[1..] == a[1..] + r;
    if |a| > 1 { assert t[1] == a[1]; } else if r != [] { assert t[1] == r[0]; }
    RunAppend(IsNumberChar, a[1..], r);
    RunAppend(IsWordChar, a, r);
    var number, word := Run(IsNumberChar, a[1..]) + 1, Run(IsWordChar, a);
    assert t[..number] == a[..number] && t[..word] == a[..word];
  }

  lemma {:induction false} SymbolAppend(isFloat: FloatTest, a: string, r: string)
    requires a != [] && (IsSymbol(a[0]) || IsSpace(a[0])) && a[0] != '-' && !IsQuote(a[0]) && (r != [] ==> r[0] != '=')
    ensures Step(isFloat, a + r, 0) == Step(isFloat, a, 0)
  {
    hide Run, StringBody, WordKind, IsNumberChar, IsSpace, Itoa;
    var t := a + r;
    assert t[0] == a[0];
    if |a| > 1 { assert t[1] == a[1]; } else if r != [] { assert t[1] == r[0]; }
  }

  lemma {:induction false} WordAppend(isFloat: FloatTest, a: string, r: string)
    requires a != [] && a[0] != '-' && !IsQuote(a[0]) && !IsSymbol(a[0]) && !IsSpace(a[0]) && (r != [] ==> !IsWordChar(r[0]))
    ensures Step(isFloat, a + r, 0) == Step(isFloat, a, 0)
  {
    hide Run, StringBody, WordKind, IsWordChar, IsNumberChar, IsSpace, Itoa;
    assert (a + r)[0] == a[0];
    RunAppend(IsWordChar, a, r);
    var word := Run(IsWordChar, a);
    assert (a + r)[..word] == a[..word];
  }

  lemma DelimitersApart(r: string)
    requires Delimits(r)
    ensures r != [] ==> !IsWordChar(r[0]) && !IsNumberChar(r[0]) && r[0] != '='
  {
  }

  /** Text that lexes ends outside strings. */
  lemma {:induction false} ReadOutside(isFloat: FloatTest, a: string)
    requires Read(isFloat, a).Some?
    ensures EndsOutside(a, Outside)
    decreases |a|
  {
    hide Step, EndsOutside;
    if a == [] {
      EmptyOutside();
    } else {
      StepOutside(isFloat, a);
      ReadOutside(isFloat, a[Step(isFloat, a, 0).size..]);
    }
  }

  lemma EmptyOutside()
    ensures EndsOutside("", Outside)
  {
  }

  /** Text that ends outside strings, followed by a delimiter, reads as its two parts. */
  lemma {:induction false} ReadAppend(isFloat: FloatTest, a: string, r: string)
    requires EndsOutside(a, Outside) && Delimits(r)
    ensures Read(isFloat, a + r) == if Read(isFloat, a).None? then None else Then(Read(isFloat, a).value, Read(isFloat, r))
    decreases |a|
  {
    hide Step, EndsOutside, Delimits;
    if a == [] {
      assert a + r == r;
      if Read(isFloat, r).Some? { assert [] + Read(isFloat, r).value == Read(isFloat, r).value; }
    } else {
      StepAppend(isFloat, a, r);
      StepOutside(isFloat, a);
      var o := Step(isFloat, a, 0);
      if !o.Bad? {
        assert (a + r)[o.size..] == a[o.size..] + r;
        ReadAppend(isFloat, a[o.size..], r);
        if o.Emit? && Read(isFloat, a[o.size..]).Some? && Read(isFloat, r).Some? {
          var x, y := Read(isFloat, a[o.size..]).value, Read(isFloat, r).value;
          assert [Bare(o.token)] + (x + y) == [Bare(o.token)] + x + y;
        }
      }
    }
  }

  // ------------------------------------------------------------------- trims

  lemma {:induction false} TrimLeftSame(isFloat: FloatTest, s: string)
    ensures Read(isFloat, TrimLeft(s)) == Read(isFloat, s)
    ensures EndsOutside(TrimLeft(s), Outside) == EndsOutside(s, Outside)
  {
    hide Run, StringBody, WordKind, IsLetter, IsDigit;
    NotSpace();
    if s != [] && IsSpace(s[0]) { TrimLeftSame(isFloat, s[1..]); }
  }

  lemma {:induction false} SpaceKeepsMode(s: string, mode: Mode)
    requires s != [] && IsSpace(s[|s| - 1]) && (mode.Inside? ==> IsQuote(mode.quote))
    ensures EndsOutside(s[..|s| - 1], mode) == EndsOutside(s, mode)
    decreases |s|
  {
    hide IsSpace;
    NoQuotesInWords();
    var n := |s| - 1;
    if |s| == 1 {
      assert s[..0] == "" && s[1..] == "";
    } else if mode.Inside? && s[0] != mode.quote && s[0] == '\\' {
      if |s| == 2 {
        assert s[2..] == "" && s[..1][1..] == "";
      } else {
        assert s[2..][..|s| - 3] == s[..n][2..];
        SpaceKeepsMode(s[2..], mode);
      }
    } else {
      assert s[1..][..|s| - 2] == s[..n][1..];
      SpaceKeepsMode(s[1..], if mode.Outside? then if IsQuote(s[0]) then Inside(s[0]) else Outside
                             else if s[0] == mode.quote then Outside else mode);
    }
  }

  lemma {:induction false} TrimRightSame(isFloat: FloatTest, s: string)
    requires EndsOutside(s, Outside)
    ensures Read(isFloat, TrimRight(s)) == Read(isFloat, s)
  {
    hide EndsOutside, Step, Read;
    if s != [] && IsSpace(s[|s| - 1]) {
      var t := s[..|s| - 1];
      SpaceKeepsMode(s, Outside);
      TrimRightSame(isFloat, t);
      assert s == t + [s[|s| - 1]];
      ReadAppend(isFloat, t, [s[|s| - 1]]);
      OneSpace(isFloat, s[|s| - 1]);
      if Read(isFloat, t).Some? { assert Read(isFloat, t).value + [] == Read(isFloat, t).value; }
    }
  }

  lemma OneSpace(isFloat: FloatTest, c: char)
    requires IsSpace(c)
    ensures Read(isFloat, [c]) == Some([])
  {
    assert Read(isFloat, [c][1..]) == Some([]);
  }

  lemma {:induction false} TrimRightInside(s: string)
    requires !EndsOutside(s, Outside)
    ensures !EndsOutside(TrimRight(s), Outside)
  {
    hide EndsOutside, IsSpace;
    if s != [] && IsSpace(s[|s| - 1]) {
      SpaceKeepsMode(s, Outside);
      TrimRightInside(s[..|s| - 1]);
    }
  }

  /** A statement reads as its untrimmed text. */
  lemma {:induction false} TrimSame(isFloat: FloatTest, s: string)
    ensures Read(isFloat, Trim(s)) == Read(isFloat, s)
  {
    hide Read, EndsOutside, TrimLeft, TrimRight;
    TrimLeftSame(isFloat, s);
    if EndsOutside(s, Outside) {
      TrimRightSame(isFloat, TrimLeft(s));
    } else {
      TrimRightInside(TrimLeft(s));
      if Read(isFloat, s).Some? { ReadOutside(isFloat, s); }
      if Read(isFloat, Trim(s)).Some? { ReadOutside(isFloat, Trim(s)); }
    }
  }

  /** A statement that is left has a token; a blank one has none. */
  lemma {:induction false} TrimTokens(isFloat: FloatTest, s: string)
    ensures Trim(s) == "" ==> Read(isFloat, s) == Some([])
    ensures Trim(s) != "" && Read(isFloat, s).Some? ==> Read(isFloat, s).value != []
  {
    hide Step, TrimLeft, TrimRight;
    TrimSame(isFloat, s);
    TrimStart(s);
    var x := Trim(s);
    if x != "" { NotSkipped(isFloat, x); }
  }

  lemma {:induction false} TrimStart(s: string)
    ensures Trim(s) != "" ==> !IsSpace(Trim(s)[0])
  {
    TrimLeftStart(s);
    TrimRightStart(TrimLeft(s));
  }

  lemma {:induction false} TrimLeftStart(s: string)
    ensures TrimLeft(s) != "" ==> !IsSpace(TrimLeft(s)[0])
  {
    if s != [] && IsSpace(s[0]) { TrimLeftStart(s[1..]); }
  }

  lemma {:induction false} TrimRightStart(s: string)
    ensures TrimRight(s) != "" ==> s != "" && TrimRight(s)[0] == s[0]
  {
    if s != [] && IsSpace(s[|s| - 1]) { TrimRightStart(s[..|s| - 1]); }
  }

  lemma NotSkipped(isFloat: FloatTest, x: string)
    requires x != "" && !IsSpace(x[0])
    ensures !Step(isFloat, x, 0).Skip?
  {
    hide IsSpace, IsLetter, Run, StringBody;
  }

  // --------------------------------------------------- where the lexer is cut

  /** The first semicolon outside strings, as the lexer sees them, or the length of the text. */
  function LexCut(s: string, mode: Mode): (n: nat)
    ensures n <= |s| && (n < |s| ==> s[n] == ';')
    decreases |s|
  {
    if s == [] then 0
    else if mode.Outside? then
      if s[0] == ';' then 0 else 1 + LexCut(s[1..], if IsQuote(s[0]) then Inside(s[0]) else Outside)
    else if s[0] == mode.quote then 1 + LexCut(s[1..], Outside)
    else if s[0] == '\\' && |s| > 1 then 2 + LexCut(s[2..], mode)
    else 1 + LexCut(s[1..], mode)
  }

  /** What comes before the cut ends outside strings and has no cut itself. */
  lemma {:induction false} CutOutside(s: string, mode: Mode)
    ensures var n := LexCut(s, mode);
            (n < |s| ==> EndsOutside(s[..n], mode)) && LexCut(s[..n], mode) == n
    decreases |s|
  {
    hide IsQuote, LexCut, EndsOutside, Advance;
    var n := LexCut(s, mode);
    if s == [] {
      NothingCut(s, mode);
    } else if mode.Outside? && s[0] == ';' {
      NothingCut(s, mode);
    } else {
      var (k, m) := Advance(s, mode);
      Advances(s, mode);
      CutOutside(s[k..], m);
      AdvancePrefix(s, mode, n);
      Advances(s[..n], mode);
      assert s[..n][k..] == s[k..][..n - k];
    }
  }

  lemma NothingCut(s: string, mode: Mode)
    requires s == [] || (mode.Outside? && s[0] == ';')
    ensures LexCut(s, mode) == 0 && LexCut(s[..0], mode) == 0 && (mode.Outside? ==> EndsOutside(s[..0], mode))
  {
  }

  /** How far one character or escape goes, and the mode behind it. */
  function Advance(s: string, mode: Mode): (r: (nat, Mode))
    requires s != []
    ensures 0 < r.0 <= |s|
  {
    if mode.Inside? && s[0] != mode.quote && s[0] == '\\' && |s| > 1 then (2, mode) else (1, NextMode(mode, s[0]))
  }

  lemma {:induction false} Advances(s: string, mode: Mode)
    requires s != []
    ensures var (k, m) := Advance(s, mode);
            && EndsOutside(s, mode) == EndsOutside(s[k..], m)
            && (!(mode.Outside? && s[0] == ';') ==> LexCut(s, mode) == k + LexCut(s[k..], m))
  {
  }

  lemma {:induction false} AdvancePrefix(s: string, mode: Mode, n: nat)
    requires s != [] && Advance(s, mode).0 <= n <= |s|
    ensures s[..n] != [] && s[..n][0] == s[0] && Advance(s[..n], mode) == Advance(s, mode)
  {
  }

  /** A semicolon before the cut lies inside a string. */
  lemma {:induction false} BeforeCut(s: string, mode: Mode, i: nat)
    requires i < LexCut(s, mode) && s[i] == ';'
    ensures !EndsOutside(s[..i], mode)
    decreases |s|
  {
    hide IsQuote, LexCut;
    Advances(s, mode);
    var (k, m) := Advance(s, mode);
    if mode.Outside? && s[0] == ';' {
      NothingCut(s, mode);
    } else if i < k {
      assert i == 1 ==> s[..1][1..] == [];
    } else {
      BeforeCut(s[k..], m, i - k);
      AdvancePrefix(s, mode, i);
      Advances(s[..i], mode);
      assert s[..i][k..] == s[k..][..i - k];
    }
  }

  /** Text cut off behind the cut is cut at the same place. */
  lemma {:induction false} CutOfPrefix(s: string, mode: Mode, n: nat)
    requires LexCut(s, mode) < n <= |s|
    ensures LexCut(s[..n], mode) == LexCut(s, mode)
    decreases |s|
  {
    hide IsQuote, LexCut, EndsOutside, Advance;
    if mode.Outside? && s[0] == ';' {
      NothingCut(s, mode);
      NothingCut(s[..n], mode);
    } else {
      var (k, m) := Advance(s, mode);
      Advances(s, mode);
      CutOfPrefix(s[k..], m, n - k);
      AdvancePrefix(s, mode, n);
      Advances(s[..n], mode);
      assert s[..n][k..] == s[k..][..n - k];
    }
  }

  lemma {:induction false} PlainCut(s: string, k: nat)
    requires k <= |s| && forall i :: 0 <= i < k ==> !IsQuote(s[i]) && s[i] != ';'
    ensures LexCut(s, Outside) == k + LexCut(s[k..], Outside)
  {
    if k > 0 {
      PlainCut(s[1..], k - 1);
      assert s[1..][k - 1..] == s[k..];
    }
  }

  /** One character, or an escape, of a string body. */
  lemma {:induction false} BodyStep(s: string, quote: char)
    requires StringBody(s, quote).Some?
    ensures if s[0] == quote then StringBody(s, quote).value.1 == 1 && LexCut(s, Inside(quote)) == 1 + LexCut(s[1..], Outside)
            else
              var k := if s[0] == '\\' && |s| > 1 then 2 else 1;
              && StringBody(s[k..], quote).Some? && StringBody(s, quote).value.1 == k + StringBody(s[k..], quote).value.1
              && LexCut(s, Inside(quote)) == k + LexCut(s[k..], Inside(quote))
  {
  }

  lemma {:induction false} BodyCut(s: string, quote: char)
    requires StringBody(s, quote).Some?
    ensures var k := StringBody(s, quote).value.1;
            LexCut(s, Inside(quote)) == k + LexCut(s[k..], Outside)
    decreases |s|
  {
    hide StringBody, LexCut;
    BodyStep(s, quote);
    if s[0] != quote {
      var k := if s[0] == '\\' && |s| > 1 then 2 else 1;
      BodyCut(s[k..], quote);
      var n := StringBody(s[k..], quote).value.1;
      assert s[k..][n..] == s[k + n..];
    }
  }

  /** Before the cut no step is a semicolon, and what remains is still before it. */
  lemma {:induction false} StepBeforeCut(isFloat: FloatTest, a: string)
    requires a != [] && LexCut(a, Outside) == |a|
    ensures var o := Step(isFloat, a, 0);
            !o.Bad? ==> LexCut(a[o.size..], Outside) == |a| - o.size && (o.Emit? ==> o.token.kind != Semicolon)
  {
    hide Step, IsQuote, StringBody;
    var o := Step(isFloat, a, 0);
    CutStart(a);
    NotSemicolon(isFloat, a);
    if !o.Bad? {
      if IsQuote(a[0]) {
        QuoteStep(isFloat, a);
        BodyCut(a[1..], a[0]);
        assert a[1..][o.size - 1..] == a[o.size..];
      } else {
        PlainStep(isFloat, a);
        PlainCut(a, o.size);
      }
    }
  }

  lemma {:induction false} CutStart(a: string)
    requires a != [] && LexCut(a, Outside) == |a|
    ensures a[0] != ';' && (IsQuote(a[0]) ==> LexCut(a, Outside) == 1 + LexCut(a[1..], Inside(a[0])))
  {
  }

  lemma {:induction false} QuoteStep(isFloat: FloatTest, a: string)
    requires a != [] && IsQuote(a[0]) && !Step(isFloat, a, 0).Bad?
    ensures StringBody(a[1..], a[0]).Some? && Step(isFloat, a, 0).size == 1 + StringBody(a[1..], a[0]).value.1
  {
    hide Run, StringBody, WordKind, IsLetter, IsDigit, IsSpace, Itoa;
    NotSpace();
  }

  lemma {:induction false} PlainStep(isFloat: FloatTest, a: string)
    requires a != [] && !IsQuote(a[0]) && a[0] != ';' && !Step(isFloat, a, 0).Bad?
    ensures forall i :: 0 <= i < Step(isFloat, a, 0).size ==> !IsQuote(a[i]) && a[i] != ';'
  {
    hide Run, StringBody, WordKind, IsWordChar, IsNumberChar, IsSpace, Itoa;
    NoQuotesInWords();
  }

  lemma NotSemicolon(isFloat: FloatTest, a: string)
    requires a != [] && a[0] != ';'
    ensures var o := Step(isFloat, a, 0);
            o.Emit? ==> o.token.kind != Semicolon
  {
    hide Run, StringBody, IsLetter, IsDigit, IsSpace, Atoi, Upper, Itoa;
  }

  predicate NoSemicolon(ts: seq<Token>)
  {
    forall i :: 0 <= i < |ts| ==> ts[i].kind != Semicolon
  }

  lemma {:induction false} TokensBeforeCut(isFloat: FloatTest, a: string)
    requires LexCut(a, Outside) == |a| && Read(isFloat, a).Some?
    ensures NoSemicolon(Read(isFloat, a).value)
    decreases |a|
  {
    hide Step, LexCut;
    if a != [] {
      StepBeforeCut(isFloat, a);
      TokensBeforeCut(isFloat, a[Step(isFloat, a, 0).size..]);
    }
  }

  lemma SemicolonStep(isFloat: FloatTest, rest: string)
    ensures Read(isFloat, [';'] + rest) == Then([Token(Semicolon, ";")], Read(isFloat, rest))
  {
    hide Run, StringBody, IsLetter, WordKind, Itoa;
    var s := [';'] + rest;
    assert s[0] == ';' && s[1..] == rest;
    assert Step(isFloat, s, 0) == Emit(Token(Semicolon, ";"), 1);
  }

  /** The text reads as what comes before the cut, a semicolon and the rest. */
  lemma {:induction false} ReadCut(isFloat: FloatTest, s: string)
    requires LexCut(s, Outside) < |s|
    ensures var n := LexCut(s, Outside);
            var x, y := Read(isFloat, s[..n]), Read(isFloat, s[n + 1..]);
            Read(isFloat, s) == if x.None? || y.None? then None else Some(x.value + [Token(Semicolon, ";")] + y.value)
  {
    hide Read, LexCut, EndsOutside;
    var n := LexCut(s, Outside);
    var a, rest := s[..n], s[n + 1..];
    CutOutside(s, Outside);
    assert s == a + ([';'] + rest);
    ReadAppend(isFloat, a, [';'] + rest);
    SemicolonStep(isFloat, rest);
    var x, y := Read(isFloat, a), Read(isFloat, rest);
    if x.Some? && y.Some? {
      assert x.value + ([Token(Semicolon, ";")] + y.value) == x.value + [Token(Semicolon, ";")] + y.value;
    }
  }

  // ----------------------------------------------------------- cutting tokens

  function SemicolonAt(ts: seq<Token>): (n: nat)
    ensures n <= |ts| && NoSemicolon(ts[..n]) && (n < |ts| ==> ts[n].kind == Semicolon)
  {
    if ts == [] || ts[0].kind == Semicolon then 0 else
      var n := 1 + SemicolonAt(ts[1..]);
      assert ts[..n] == [ts[0]] + ts[1..][..n - 1];
      n
  }

  /** The tokens between semicolons. */
  function Cut(ts: seq<Token>): seq<seq<Token>>
  {
    var n := SemicolonAt(ts);
    if n == |ts| then [ts] else [ts[..n]] + Cut(ts[n + 1..])
  }

  function DropEmpty(xs: seq<seq<Token>>): seq<seq<Token>>
  {
    if xs == [] then [] else (if xs[0] != [] then [xs[0]] else []) + DropEmpty(xs[1..])
  }

  /** The tokens of every statement, if all lex. */
  function ReadEach(isFloat: FloatTest, parts: seq<string>): Option<seq<seq<Token>>>
  {
    if parts == [] then Some([])
    else
      var first, rest := Read(isFloat, parts[0]), ReadEach(isFloat, parts[1..]);
      if first.None? || rest.None? then None else Some([first.value] + rest.value)
  }

  lemma {:induction false} CutWhole(ts: seq<Token>)
    requires NoSemicolon(ts)
    ensures Cut(ts) == [ts]
  {
    hide SemicolonAt;
    var n := SemicolonAt(ts);
  }

  lemma {:induction false} CutFirst(x: seq<Token>, semi: Token, y: seq<Token>)
    requires NoSemicolon(x) && semi.kind == Semicolon
    ensures Cut(x + [semi] + y) == [x] + Cut(y)
  {
    hide SemicolonAt;
    var ts := x + [semi] + y;
    var n := SemicolonAt(ts);
    assert ts[|x|] == semi;
    assert forall i :: 0 <= i < |x| ==> ts[i] == x[i];
    assert forall i :: 0 <= i < n ==> ts[..n][i] == ts[i];
    assert n == |x|;
    assert ts[..n] == x && ts[n + 1..] == y;
  }

  /** Every piece of a cut is without semicolons. */
  lemma {:induction false} CutPieces(ts: seq<Token>)
    ensures forall x :: x in DropEmpty(Cut(ts)) ==> NoSemicolon(x)
    decreases |ts|
  {
    hide SemicolonAt;
    var n := SemicolonAt(ts);
    if n < |ts| {
      CutPieces(ts[n + 1..]);
      assert ([ts[..n]] + Cut(ts[n + 1..]))[1..] == Cut(ts[n + 1..]);
    } else {
      assert ts[..n] == ts;
      assert [ts][1..] == [];
      assert DropEmpty([]) == [];
    }
  }

  // ---------------------------------------------------------------- the law

  /** The statements read as the text's tokens cut at semicolons, empty pieces dropped. */
  ghost predicate Commutes(isFloat: FloatTest, s: string, parts: seq<string>)
  {
    && Read(isFloat, s).Some? && ReadEach(isFloat, parts).Some?
    && ReadEach(isFloat, parts).value == DropEmpty(Cut(Read(isFloat, s).value))
  }

  /** At every semicolon the splitter's flag and the lexer agree on being inside a string. */
  predicate SameView(s: string, mode: Mode, quote: Option<char>)
    decreases |s|
  {
    if s == [] then true
    else if mode.Inside? && s[0] != mode.quote && s[0] == '\\' && |s| > 1 then
      (s[1] == ';' ==> quote.Some?) && SameView(s[2..], mode, NextFlag(NextFlag(quote, s[0]), s[1]))
    else
      && (s[0] == ';' ==> (mode.Outside? <==> quote.None?))
      && SameView(s[1..], NextMode(mode, s[0]), NextFlag(quote, s[0]))
  }

  function NextFlag(quote: Option<char>, c: char): Option<char>
  {
    if quote.Some? then if c == quote.value then None else quote
    else if IsQuote(c) then Some(c) else None
  }

  /** The mode after a character that is not an escaping backslash. */
  function NextMode(mode: Mode, c: char): Mode
  {
    if mode.Outside? then if IsQuote(c) then Inside(c) else Outside
    else if c == mode.quote then Outside else mode
  }

  /** The views agree exactly when both cut at the same place, and agree behind it. */
  lemma {:induction false} ViewCut(s: string, mode: Mode, quote: Option<char>)
    requires quote.Some? ==> IsQuote(quote.value)
    ensures CutsAgree(s, mode, quote)
    decreases |s|
  {
    hide SameView, LexCut, SegmentEnd, CutsAgree;
    if s == [] {
      NothingToCut(mode, quote);
    } else if mode.Inside? && s[0] != mode.quote && s[0] == '\\' && |s| > 1 {
      ViewCut(s[2..], mode, NextFlag(quote, s[1]));
      EscapeAgrees(s, mode, quote);
    } else {
      ViewCut(s[1..], NextMode(mode, s[0]), NextFlag(quote, s[0]));
      CharacterAgrees(s, mode, quote);
    }
  }

  ghost predicate CutsAgree(s: string, mode: Mode, quote: Option<char>)
  {
    var n := LexCut(s, mode);
    SameView(s, mode, quote) <==> n == SegmentEnd(s, quote) && (n < |s| ==> SameView(s[n + 1..], Outside, None))
  }

  lemma NothingToCut(mode: Mode, quote: Option<char>)
    ensures CutsAgree([], mode, quote)
  {
  }

  lemma {:induction false} EscapeAgrees(s: string, mode: Mode, quote: Option<char>)
    requires quote.Some? ==> IsQuote(quote.value)
    requires mode.Inside? && |s| > 1 && s[0] != mode.quote && s[0] == '\\'
    requires CutsAgree(s[2..], mode, NextFlag(quote, s[1]))
    ensures CutsAgree(s, mode, quote)
  {
    assert NextFlag(quote, s[0]) == quote;
    var n := LexCut(s, mode);
    assert n == 2 + LexCut(s[2..], mode);
    assert s[1..][1..] == s[2..];
    assert SegmentEnd(s, quote) == 1 + SegmentEnd(s[1..], quote);
    if n < |s| { assert s[2..][n - 2 + 1..] == s[n + 1..]; }
  }

  lemma {:induction false} CharacterAgrees(s: string, mode: Mode, quote: Option<char>)
    requires s != [] && !(mode.Inside? && s[0] != mode.quote && s[0] == '\\' && |s| > 1)
    requires CutsAgree(s[1..], NextMode(mode, s[0]), NextFlag(quote, s[0]))
    ensures CutsAgree(s, mode, quote)
  {
    hide SameView, LexCut, SegmentEnd;
    LexCutNext(s, mode);
    SegmentEndNext(s, quote);
    SameViewNext(s, mode, quote);
    assert !IsQuote(';');
    var n := LexCut(s[1..], NextMode(mode, s[0]));
    if n < |s[1..]| { assert s[1..][n + 1..] == s[n + 2..]; }
  }

  lemma LexCutNext(s: string, mode: Mode)
    requires s != [] && !(mode.Inside? && s[0] != mode.quote && s[0] == '\\' && |s| > 1)
    ensures LexCut(s, mode) == if s[0] == ';' && mode.Outside? then 0 else 1 + LexCut(s[1..], NextMode(mode, s[0]))
  {
  }

  lemma SegmentEndNext(s: string, quote: Option<char>)
    requires s != []
    ensures SegmentEnd(s, quote) == if s[0] == ';' && quote.None? then 0 else 1 + SegmentEnd(s[1..], NextFlag(quote, s[0]))
  {
  }

  lemma SameViewNext(s: string, mode: Mode, quote: Option<char>)
    requires s != [] && !(mode.Inside? && s[0] != mode.quote && s[0] == '\\' && |s| > 1)
    ensures SameView(s, mode, quote) <==>
            (s[0] == ';' ==> (mode.Outside? <==> quote.None?)) && SameView(s[1..], NextMode(mode, s[0]), NextFlag(quote, s[0]))
  {
  }

  /** A text in which no backslash escapes the quote of its own string. */
  predicate NoEscapedQuote(s: string, mode: Mode)
    decreases |s|
  {
    if s == [] then true
    else if mode.Inside? && s[0] != mode.quote && s[0] == '\\' && |s| > 1 then s[1] != mode.quote && NoEscapedQuote(s[2..], mode)
    else NoEscapedQuote(s[1..], NextMode(mode, s[0]))
  }

  /** On such a text flag and lexer always agree. */
  lemma {:induction false} NoEscapedQuoteSameView(s: string, mode: Mode)
    requires NoEscapedQuote(s, mode) && (mode.Inside? ==> IsQuote(mode.quote))
    ensures SameView(s, mode, if mode.Inside? then Some(mode.quote) else None)
    decreases |s|
  {
    if s != [] {
      if mode.Inside? && s[0] != mode.quote && s[0] == '\\' && |s| > 1 {
        NoEscapedQuoteSameView(s[2..], mode);
      } else {
        NoEscapedQuoteSameView(s[1..], NextMode(mode, s[0]));
      }
    }
  }

  /** What one segment contributes to the statements and to the cut tokens. */
  lemma {:induction false} FirstPart(isFloat: FloatTest, a: string, rest: seq<string>)
    ensures var x := Trim(a);
            var parts := (if x != "" then [x] else []) + rest;
            var first, others := Read(isFloat, a), ReadEach(isFloat, rest);
            ReadEach(isFloat, parts) == if first.None? || others.None? then None
                                        else Some((if first.value != [] then [first.value] else []) + others.value)
  {
    hide Read, Trim;
    TrimSame(isFloat, a);
    TrimTokens(isFloat, a);
    var x := Trim(a);
    if x != "" {
      assert ([x] + rest)[1..] == rest;
    } else {
      assert [] + rest == rest;
      if ReadEach(isFloat, rest).Some? { assert [] + ReadEach(isFloat, rest).value == ReadEach(isFloat, rest).value; }
    }
  }

  lemma {:induction false} StatementsFirst(s: string)
    ensures var n := SegmentEnd(s, None);
            var x := Trim(s[..n]);
            Statements(s) == (if x != "" then [x] else []) + if n == |s| then [] else Statements(s[n + 1..])
  {
    hide SegmentEnd, Trim;
    var n := SegmentEnd(s, None);
    var a := s[..n];
    if n == |s| {
      assert a == s && Segments(s) == [s] && [s][1..] == [];
      assert NonBlank([]) == [];
    } else {
      var tail := Segments(s[n + 1..]);
      assert Segments(s) == [a] + tail && ([a] + tail)[1..] == tail;
    }
  }

  lemma {:induction false} CutsFirst(isFloat: FloatTest, s: string)
    requires Read(isFloat, s).Some?
    ensures var n := LexCut(s, Outside);
            && Read(isFloat, s[..n]).Some? && NoSemicolon(Read(isFloat, s[..n]).value)
            && (n < |s| ==> Read(isFloat, s[n + 1..]).Some?)
            && DropEmpty(Cut(Read(isFloat, s).value))
                 == (if Read(isFloat, s[..n]).value != [] then [Read(isFloat, s[..n]).value] else [])
                    + if n < |s| then DropEmpty(Cut(Read(isFloat, s[n + 1..]).value)) else []
  {
    hide Read, LexCut, Cut;
    var n := LexCut(s, Outside);
    CutOutside(s, Outside);
    if n < |s| {
      ReadCut(isFloat, s);
      TokensBeforeCut(isFloat, s[..n]);
      var x, y := Read(isFloat, s[..n]).value, Read(isFloat, s[n + 1..]).value;
      CutFirst(x, Token(Semicolon, ";"), y);
      assert ([x] + Cut(y))[1..] == Cut(y);
    } else {
      assert s[..n] == s;
      TokensBeforeCut(isFloat, s);
      CutWhole(Read(isFloat, s).value);
      assert [Read(isFloat, s).value][1..] == [];
      assert DropEmpty([]) == [];
    }
  }

  /** Where the views agree, the text lexes exactly when every statement does, and then they commute. */
  lemma {:induction false} AgreeingCommutes(isFloat: FloatTest, s: string)
    requires SameView(s, Outside, None)
    ensures Read(isFloat, s).Some? <==> ReadEach(isFloat, Statements(s)).Some?
    ensures Read(isFloat, s).Some? ==> Commutes(isFloat, s, Statements(s))
    decreases |s|
  {
    hide Read, LexCut, SegmentEnd, SameView, Trim, Cut, Statements, DropEmpty;
    ViewCut(s, Outside, None);
    StatementsFirst(s);
    var n := LexCut(s, Outside);
    FirstPart(isFloat, s[..n], if n == |s| then [] else Statements(s[n + 1..]));
    NoParts(isFloat);
    if n < |s| {
      AgreeingCommutes(isFloat, s[n + 1..]);
      ReadCut(isFloat, s);
    } else {
      assert s[..n] == s;
    }
    if Read(isFloat, s).Some? { CutsFirst(isFloat, s); }
  }

  lemma NoParts(isFloat: FloatTest)
    ensures ReadEach(isFloat, []) == Some([])
  {
  }

  /** Where the views differ on a text that lexes, they do not commute. */
  lemma {:induction false} DifferingFails(isFloat: FloatTest, s: string)
    requires Read(isFloat, s).Some? && !SameView(s, Outside, None)
    ensures !Commutes(isFloat, s, Statements(s))
    decreases |s|
  {
    hide Read, LexCut, SegmentEnd, SameView, Trim, Cut, Statements, DropEmpty;
    ViewCut(s, Outside, None);
    StatementsFirst(s);
    CutsFirst(isFloat, s);
    var n, m := SegmentEnd(s, None), LexCut(s, Outside);
    FirstPart(isFloat, s[..n], if n == |s| then [] else Statements(s[n + 1..]));
    if n < m {
      BeforeCut(s, Outside, n);
      if Read(isFloat, s[..n]).Some? { ReadOutside(isFloat, s[..n]); }
    } else if n > m {
      if ReadEach(isFloat, Statements(s)).Some? {
        SemicolonInPart(isFloat, s, n, m);
        CutPieces(Read(isFloat, s).value);
        assert ReadEach(isFloat, Statements(s)).value[0] == Read(isFloat, s[..n]).value;
      }
    } else {
      DifferingFails(isFloat, s[n + 1..]);
      if Commutes(isFloat, s, Statements(s)) {
        var first := Read(isFloat, s[..n]).value;
        SameTail(if first != [] then [first] else [], ReadEach(isFloat, Statements(s[n + 1..])).value,
          DropEmpty(Cut(Read(isFloat, s[n + 1..]).value)));
      }
    }
  }

  lemma {:induction false} SameTail<T>(p: seq<T>, a: seq<T>, b: seq<T>)
    requires p + a == p + b
    ensures a == b
  {
    assert a == (p + a)[|p|..] && b == (p + b)[|p|..];
  }

  /** A statement that runs past a semicolon of the lexer has a semicolon token. */
  lemma {:induction false} SemicolonInPart(isFloat: FloatTest, s: string, n: nat, m: nat)
    requires m == LexCut(s, Outside) < n <= |s| && Read(isFloat, s[..n]).Some?
    ensures Read(isFloat, s[..n]).value != [] && !NoSemicolon(Read(isFloat, s[..n]).value)
  {
    hide Read, LexCut;
    CutOfPrefix(s, Outside, n);
    ReadCut(isFloat, s[..n]);
    var x := Read(isFloat, s[..n][..m]).value;
    assert Read(isFloat, s[..n]).value[|x|] == Token(Semicolon, ";");
  }

  // ------------------------------------------------------- in terms of lexing

  function BareEach(xs: seq<seq<Token>>): seq<seq<Token>>
  {
    if xs == [] then [] else [BareAll(xs[0])] + BareEach(xs[1..])
  }

  /** The tokens of every statement with their own parameter numbers, if all lex. */
  function LexedEach(isFloat: FloatTest, parts: seq<string>): Option<seq<seq<Token>>>
  {
    if parts == [] then Some([])
    else
      var first, rest := Lexed(isFloat, parts[0], 0), LexedEach(isFloat, parts[1..]);
      if first.None? || rest.None? then None else Some([first.value] + rest.value)
  }

  lemma {:induction false} ReadEachIsLexed(isFloat: FloatTest, parts: seq<string>)
    ensures var ts := LexedEach(isFloat, parts);
            ReadEach(isFloat, parts) == if ts.None? then None else Some(BareEach(ts.value))
  {
    hide Read, Lexed;
    if parts != [] {
      ReadIsLexed(isFloat, parts[0], 0);
      ReadEachIsLexed(isFloat, parts[1..]);
      var first, rest := Lexed(isFloat, parts[0], 0), LexedEach(isFloat, parts[1..]);
      if first.Some? && rest.Some? { assert ([first.value] + rest.value)[1..] == rest.value; }
    }
  }

  /**
   * Splitting and lexing.  On every text on which the splitter's quote flag
   * and the lexer agree at every semicolon, the text lexes exactly when every
   * statement does.  And on every text that lexes, the statements lex to the
   * text's tokens cut at its semicolons, empty pieces dropped and parameter
   * numbers aside, exactly when they agree so.
   */
  lemma {:induction false} SplitCommutes(isFloat: FloatTest, s: string)
    ensures var whole, parts := Lexed(isFloat, s, 0), LexedEach(isFloat, Statements(s));
            && (SameView(s, Outside, None) ==> (whole.Some? <==> parts.Some?))
            && (whole.Some? ==>
                  (parts.Some? && BareEach(parts.value) == DropEmpty(Cut(BareAll(whole.value))) <==> SameView(s, Outside, None)))
  {
    hide Lexed, Read, SameView, Statements, Cut, DropEmpty, BareAll, BareEach, LexedEach, ReadEach;
    ReadIsLexed(isFloat, s, 0);
    ReadEachIsLexed(isFloat, Statements(s));
    if SameView(s, Outside, None) {
      AgreeingCommutes(isFloat, s);
    } else if Lexed(isFloat, s, 0).Some? {
      DifferingFails(isFloat, s);
    }
  }

  // ------------------------------------------------------------- an escape

  lemma EscapedBody()
    ensures StringBody(['\\', '\'', ';', '\''], '\'') == Some((['\'', ';'], 4))
  {
    var s := ['\\', '\'', ';', '\''];
    assert s[2..] == [';', '\''] && [';', '\''][1..] == ['\''];
    assert StringBody(['\''], '\'') == Some(("", 1));
    assert [';'] + "" == [';'] && ['\''] + [';'] == ['\'', ';'];
    assert StringBody([';', '\''], '\'') == Some(([';'], 2));
  }

  /** A string with an escaped quote and a semicolon: one token, which the splitter cuts in two. */
  lemma {:induction false} EscapesDoNotCommute(isFloat: FloatTest)
    ensures var s := ['\'', '\\', '\'', ';', '\''];
            && Lexed(isFloat, s, 0) == Some([Token(String, ['\'', ';'])])
            && !SameView(s, Outside, None)
            && !(LexedEach(isFloat, Statements(s)).Some? &&
                 BareEach(LexedEach(isFloat, Statements(s)).value) == DropEmpty(Cut(BareAll(Lexed(isFloat, s, 0).value))))
  {
    hide Step, StringBody, IsSpace, Statements, LexedEach, BareEach, BareAll, Cut, DropEmpty;
    var s := ['\'', '\\', '\'', ';', '\''];
    EscapedBody();
    assert s[1..] == ['\\', '\'', ';', '\''];
    QuotedStep(isFloat, s);
    assert s[5..] == "";
    var token := Token(String, ['\'', ';']);
    assert [token] + [] == [token];
    assert Lexed(isFloat, "", 0) == Some([]);
    assert s[1..][2..] == [';', '\''];
    assert !SameView([';', '\''], Inside('\''), None);
    assert !SameView(s[1..], Inside('\''), Some('\''));
    SplitCommutes(isFloat, s);
  }

  lemma {:induction false} QuotedStep(isFloat: FloatTest, s: string)
    requires s != [] && s[0] == '\''
    ensures Step(isFloat, s, 0) == (var body := StringBody(s[1..], '\'');
                                    if body.None? then Bad else Emit(Token(String, body.value.0), 1 + body.value.1))
  {
    hide Run, StringBody, WordKind, IsLetter, Itoa;
  }
}
