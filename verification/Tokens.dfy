/** Tokens, ASCII letter case and decimal numerals. */
module Tokens {
  import opened Common
  import opened Bytes

  datatype Kind =
    | EOF | Keyword | Identifier | Number | String | Boolean | NullWord | Parameter
    | Comma | LParen | RParen | Equal | NotEqual | Less | Greater | LessEqual | GreaterEqual | Semicolon

  datatype Token = Token(kind: Kind, lexeme: string)

  function UpperChar(c: char): char
  {
    if 'a' <= c <= 'z' then (c as int - 32) as char else c
  }

  function Upper(s: string): (r: string)
    ensures |r| == |s|
  {
    seq(|s|, i requires 0 <= i < |s| => UpperChar(s[i]))
  }

  /** The token reads as the word, in any case and whatever its kind. */
  predicate IsWord(t: Token, word: string)
  {
    Upper(t.lexeme) == word
  }

  // ------------------------------------------------------------------- text

  /** The bytes of a text, one for each character. */
  function TextBytes(s: string): bytes
  {
    seq(|s|, i requires 0 <= i < |s| => s[i] as int % 256)
  }

  function Text(b: bytes): string
  {
    seq(|b|, i requires 0 <= i < |b| => b[i] as char)
  }

  lemma TextRoundTrip(b: bytes)
    ensures TextBytes(Text(b)) == b
  {
  }

  // ---------------------------------------------------------------- numerals

  predicate IsDigit(c: char)
  {
    '0' <= c <= '9'
  }

  function DigitChar(d: nat): (c: char)
    requires d < 10
    ensures IsDigit(c) && c as int - '0' as int == d
  {
    ('0' as int + d) as char
  }

  function Digits(n: nat): (s: string)
    ensures s != [] && forall i :: 0 <= i < |s| ==> IsDigit(s[i])
  {
    if n < 10 then [DigitChar(n)] else Digits(n / 10) + [DigitChar(n % 10)]
  }

  function ReadDigits(s: string): Option<nat>
  {
    if s == [] || !IsDigit(s[|s| - 1]) then None
    else
      var d := s[|s| - 1] as int - '0' as int;
      if |s| == 1 then Some(d)
      else
        var high := ReadDigits(s[..|s| - 1]);
        if high.None? then None else Some(10 * high.value + d)
  }

  lemma {:induction false} DigitsRoundTrip(n: nat)
    ensures ReadDigits(Digits(n)) == Some(n)
  {
    if n >= 10 {
      DigitsRoundTrip(n / 10);
      var s := Digits(n);
      assert s[..|s| - 1] == Digits(n / 10);
    }
  }

  const INT_MIN: int := -0x8000_0000_0000_0000
  const INT_MAX: int := 0x7FFF_FFFF_FFFF_FFFF

  predicate InRange(n: int)
  {
    INT_MIN <= n <= INT_MAX
  }

  /** `strconv.Itoa` */
  function Itoa(n: int): string
  {
    if n >= 0 then Digits(n) else ['-'] + Digits(-n)
  }

  /** `strconv.Atoi`: a sign, decimal digits, and a 64-bit result. */
  function Atoi(s: string): (r: Option<int>)
    ensures r.Some? ==> InRange(r.value)
  {
    var negative := s != [] && s[0] == '-';
    var body := if s != [] && (s[0] == '-' || s[0] == '+') then s[1..] else s;
    var m := ReadDigits(body);
    if m.None? then None
    else
      var n: int := if negative then -(m.value as int) else m.value;
      if InRange(n) then Some(n) else None
  }

  lemma {:induction false} ItoaRoundTrip(n: int)
    requires InRange(n)
    ensures Atoi(Itoa(n)) == Some(n)
    ensures '.' !in Itoa(n)
  {
    DigitsRoundTrip(if n >= 0 then n else -n);
    var ds := Digits(if n >= 0 then n else -n);
    assert ds[0] != '-' && ds[0] != '+';
    assert (['-'] + ds)[1..] == ds;
  }
}
