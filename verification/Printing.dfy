/** What `fmt.Sprint` makes of a value, and which values print alike. */
module Printing {
  import opened Common
  import opened Bytes
  import opened Codec
  import T = Tokens

  // ---------------------------------------------------------------- numerals

  function Numeral(n: int): bytes
  {
    T.TextBytes(T.Itoa(n))
  }

  /** The text is what some 64-bit integer prints: it reads as one, and that one prints it. */
  predicate IsNumeral(b: bytes)
  {
    var n := T.Atoi(T.Text(b));
    n.Some? && Numeral(n.value) == b
  }

  lemma {:induction false} NumeralRead(n: i64)
    ensures T.Atoi(T.Text(Numeral(n))) == Some(n as int)
  {
    hide T.Atoi, T.InRange;
    assert T.Text(T.TextBytes(T.Itoa(n))) == T.Itoa(n);
    ItoaInRange(n);
  }

  lemma ItoaInRange(n: i64)
    ensures T.Atoi(T.Itoa(n)) == Some(n as int)
  {
    T.ItoaRoundTrip(n);
  }

  lemma {:induction false} NumeralOfSomeInt(b: bytes)
    ensures IsNumeral(b) <==> exists n: i64 :: Numeral(n) == b
  {
    hide T.Atoi, Numeral;
    if IsNumeral(b) {
      var n: i64 := T.Atoi(T.Text(b)).value;
    }
    if n: i64 :| Numeral(n) == b {
      NumeralRead(n);
    }
  }

  const SPACE: byte := 32

  lemma NumeralSpaceless(n: int)
    ensures Numeral(n) != [] && SPACE !in Numeral(n)
  {
  }

  // -------------------------------------------------------------- byte slices

  function Spaced(d: bytes): bytes
  {
    if d == [] then []
    else if |d| == 1 then Numeral(d[0])
    else Numeral(d[0]) + [SPACE] + Spaced(d[1..])
  }

  /** The numerals of the bytes, in brackets. */
  function SliceText(d: bytes): bytes
  {
    ['[' as int] + Spaced(d) + [']' as int]
  }

  /** The first space, or the length. */
  function SpaceAt(b: bytes): (i: nat)
    ensures i <= |b| && SPACE !in b[..i] && (i < |b| ==> b[i] == SPACE)
  {
    if b == [] || b[0] == SPACE then 0 else 1 + SpaceAt(b[1..])
  }

  function ReadSpaced(b: bytes): Option<bytes>
    decreases |b|
  {
    if b == [] then Some([])
    else
      var i := SpaceAt(b);
      var n := T.Atoi(T.Text(b[..i]));
      if n.None? || !(0 <= n.value < 256) then None
      else if i == |b| then Some([n.value])
      else
        var rest := ReadSpaced(b[i + 1..]);
        if rest.None? then None else Some([n.value] + rest.value)
  }

  /** The text is what some byte slice prints: it reads as one, and that one prints it. */
  predicate IsSliceText(b: bytes)
  {
    |b| >= 2 && var d := ReadSpaced(b[1..|b| - 1]); d.Some? && SliceText(d.value) == b
  }

  lemma {:induction false} SpaceBehind(x: bytes, b: bytes)
    requires SPACE !in x && x <= b && (|x| < |b| ==> b[|x|] == SPACE)
    ensures SpaceAt(b) == |x|
  {
    if x != [] {
      assert b[0] == x[0] && x[0] in x;
      SpaceBehind(x[1..], b[1..]);
    }
  }

  lemma {:induction false} SpacedRead(d: bytes)
    ensures ReadSpaced(Spaced(d)) == Some(d)
  {
    hide Numeral, T.Atoi, T.Text, SpaceAt;
    if d != [] {
      var x, s := Numeral(d[0]), Spaced(d);
      NumeralSpaceless(d[0]);
      NumeralRead(d[0]);
      assert s[..|x|] == x;
      SpaceBehind(x, s);
      assert d == [d[0]] + d[1..];
      if |d| > 1 {
        assert s[|x| + 1..] == Spaced(d[1..]);
        SpacedRead(d[1..]);
      } else {
        assert d == [d[0]] && s == x;
      }
    }
  }

  lemma {:induction false} SliceOfSomeBytes(b: bytes)
    ensures IsSliceText(b) <==> exists d :: SliceText(d) == b
  {
    hide Spaced, ReadSpaced;
    if d :| SliceText(d) == b {
      assert b[1..|b| - 1] == Spaced(d);
      SpacedRead(d);
    }
  }

  /** Byte slices that print alike are equal. */
  lemma {:induction false} SliceTextTells(a: bytes, b: bytes)
    requires SliceText(a) == SliceText(b)
    ensures a == b
  {
    hide Spaced, ReadSpaced;
    var s, t := SliceText(a), SliceText(b);
    assert s[1..|s| - 1] == Spaced(a) && t[1..|t| - 1] == Spaced(b);
    SpacedRead(a);
    SpacedRead(b);
  }

  // ------------------------------------------------------------------- values

  const TRUE_TEXT: bytes := ['t' as int, 'r' as int, 'u' as int, 'e' as int]
  const FALSE_TEXT: bytes := ['f' as int, 'a' as int, 'l' as int, 's' as int, 'e' as int]
  const NIL_TEXT: bytes := ['<' as int, 'n' as int, 'i' as int, 'l' as int, '>' as int]

  /** `fmt.Sprint`; how floats, instants and unbound parameters print is given. */
  function Sprint(show: Printer, v: Value): bytes
  {
    match v
    case Null => NIL_TEXT
    case Int(n) => Numeral(n)
    case Str(s) => s
    case Bool(b) => if b then TRUE_TEXT else FALSE_TEXT
    case Blob(d) => SliceText(d)
    case NilBlob => SliceText([])
    case Float(_) => show(v)
    case Time(_, _) => show(v)
    case Other(_) => show(v)
  }
}
