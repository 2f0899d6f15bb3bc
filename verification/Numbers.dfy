/** 64-bit integers and 64-bit floats as numbers: rounding, and which of them are equal. */
module Numbers {
  import opened Bytes
  import opened Codec

  // ------------------------------------------------------ integers as floats

  /** How many low bits an integer of this size loses as a 64-bit float. */
  function LostBits(m: nat): nat
  {
    if m < 0x20_0000_0000_0000 then 0 else 1 + LostBits(m / 2)
  }

  /** The nearest multiple of `unit`, the even one when two are as near. */
  function NearestMultiple(m: nat, unit: nat): int
    requires unit > 0
  {
    var q, r := m / unit, m % unit;
    if 2 * r < unit || (2 * r == unit && q % 2 == 0) then q * unit else (q + 1) * unit
  }

  function Magnitude(n: int): nat
  {
    if n >= 0 then n else -n
  }

  /** The magnitude of an integer converted to a 64-bit float. */
  function Rounded(m: nat): int
  {
    NearestMultiple(m, Pow2(LostBits(m)))
  }

  /** The value of an integer converted to a 64-bit float. */
  function AsFloat(n: int): int
  {
    if n >= 0 then Rounded(n) else -Rounded(-n)
  }

  const EXACT_BOUND: int := 0x20_0000_0000_0000

  /** Up to 2^53 the conversion is exact. */
  lemma AsFloatExact(n: int)
    requires -EXACT_BOUND <= n <= EXACT_BOUND
    ensures AsFloat(n) == n
  {
    var m := Magnitude(n);
    assert LostBits(0x20_0000_0000_0000) == 1;
    assert LostBits(m) == if m < EXACT_BOUND then 0 else 1;
    assert Pow2(0) == 1 && Pow2(1) == 2;
  }

  /** Past 2^53 two integers can be the same float. */
  lemma AsFloatCollides()
    ensures AsFloat(EXACT_BOUND) == AsFloat(EXACT_BOUND + 1) == EXACT_BOUND
  {
    assert LostBits(EXACT_BOUND) == 1 && LostBits(EXACT_BOUND + 1) == 1;
    assert Pow2(1) == 2;
  }

  // ------------------------------------------ integers that no other rounds to

  /** The magnitudes `k` lost bits belong to. */
  lemma {:induction false} LostBitsRange(m: nat)
    ensures var k := LostBits(m);
            if m < 0x20_0000_0000_0000 then k == 0
            else k > 0 && 0x10_0000_0000_0000 * Pow2(k) <= m < 0x20_0000_0000_0000 * Pow2(k)
  {
    if m >= 0x20_0000_0000_0000 {
      LostBitsRange(m / 2);
      assert Pow2(0) == 1;
    }
  }

  lemma {:induction false} LostBitsIs(m: nat, k: nat)
    requires k > 0 && 0x10_0000_0000_0000 * Pow2(k) <= m < 0x20_0000_0000_0000 * Pow2(k)
    ensures LostBits(m) == k
  {
    assert Pow2(k) == 2 * Pow2(k - 1) && Pow2(0) == 1;
    if k > 1 { LostBitsIs(m / 2, k - 1); }
  }

  /** A multiple of the unit is exact; what is between rounds to the multiple below or above. */
  lemma {:induction false} RoundedIs(m: nat, k: nat, q: nat, r: nat)
    requires k > 0 && 0x10_0000_0000_0000 <= q < 0x20_0000_0000_0000 && r < Pow2(k) && m == q * Pow2(k) + r
    ensures LostBits(m) == k
    ensures Rounded(m) == if 2 * r < Pow2(k) || (2 * r == Pow2(k) && q % 2 == 0) then q * Pow2(k) else (q + 1) * Pow2(k)
  {
    hide Pow2, LostBits;
    var u := Pow2(k);
    TimesOrdered(0x10_0000_0000_0000, q, u);
    TimesOrdered(q + 1, 0x20_0000_0000_0000, u);
    LostBitsIs(m, k);
    DivideBack(q, u, r);
  }

  lemma TimesOrdered(a: nat, b: nat, u: nat)
    requires a <= b
    ensures a * u <= b * u
  {
  }

  lemma {:induction false} DivideBack(q: nat, u: nat, r: nat)
    requires u > 0 && r < u
    ensures (q * u + r) / u == q && (q * u + r) % u == r
  {
    var d, e := (q * u + r) / u, (q * u + r) % u;
    assert q * u + r == d * u + e && 0 <= e < u;
    if d > q { TimesOrdered(q + 1, d, u); }
    if d < q { TimesOrdered(d + 1, q, u); }
  }

  /** No other magnitude rounds to this one. */
  predicate Alone(m: nat)
  {
    m < 0x20_0000_0000_0000 || (0x20_0000_0000_0000 < m < 0x40_0000_0000_0000 && m % 4 == 2)
  }

  /** Quotient and remainder of a large magnitude by its unit. */
  lemma {:induction false} Unit(m: nat) returns (k: nat, q: nat, r: nat)
    requires m >= 0x20_0000_0000_0000
    ensures k > 0 && 0x10_0000_0000_0000 <= q < 0x20_0000_0000_0000 && r < Pow2(k) && m == q * Pow2(k) + r
  {
    hide LostBits;
    k := LostBits(m);
    LostBitsRange(m);
    var u := Pow2(k);
    q, r := m / u, m % u;
    assert m == q * u + r;
    if q < 0x10_0000_0000_0000 { TimesOrdered(q + 1, 0x10_0000_0000_0000, u); }
    if q >= 0x20_0000_0000_0000 { TimesOrdered(0x20_0000_0000_0000, q, u); }
  }

  lemma SmallPowers()
    ensures Pow2(0) == 1 && Pow2(1) == 2 && Pow2(2) == 4
  {
  }

  lemma {:induction false} PowersGrow(j: nat, k: nat)
    requires j <= k
    ensures Pow2(j) <= Pow2(k)
  {
    if j < k { PowersGrow(j, k - 1); }
  }

  /** A large magnitude rounds to one at least as large as the least of its size. */
  lemma {:induction false} RoundedLarge(m: nat)
    requires m >= 0x20_0000_0000_0000
    ensures Rounded(m) >= 0x20_0000_0000_0000
    ensures m >= 0x40_0000_0000_0000 ==> Rounded(m) >= 0x40_0000_0000_0000
    ensures m < 0x40_0000_0000_0000 ==> Rounded(m) == if m % 2 == 0 then m else if m % 4 == 1 then m - 1 else m + 1
  {
    hide Pow2, LostBits, Rounded;
    var k, q, r := Unit(m);
    RoundedIs(m, k, q, r);
    SmallPowers();
    PowersGrow(1, k);
    TimesOrdered(0x10_0000_0000_0000, q, Pow2(k));
    TimesOrdered(q, q + 1, Pow2(k));
    if m >= 0x40_0000_0000_0000 {
      if k == 1 { assert false; }
      PowersGrow(2, k);
    } else if k > 1 {
      PowersGrow(2, k);
      assert false;
    }
  }

  lemma {:induction false} AloneIsExact(m: nat, w: nat)
    requires Alone(m) && Rounded(w) == Rounded(m)
    ensures w == m
  {
    hide Rounded;
    if m < 0x20_0000_0000_0000 { SmallIsExact(m); } else { RoundedLarge(m); }
    if w < 0x20_0000_0000_0000 { SmallIsExact(w); } else { RoundedLarge(w); }
  }

  lemma SmallIsExact(m: nat)
    requires m < 0x20_0000_0000_0000
    ensures Rounded(m) == m
  {
    AsFloatExact(m);
  }

  /** The largest magnitudes of 64-bit integers round to 2^63. */
  lemma {:induction false} RoundedTop()
    ensures Rounded(0x7FFF_FFFF_FFFF_FFFE) == Rounded(0x7FFF_FFFF_FFFF_FFFF) == Rounded(0x8000_0000_0000_0000) == 0x8000_0000_0000_0000
  {
    hide Rounded, LostBits;
    assert Pow2(5) == 32 && Pow2(10) == 1024 && Pow2(11) == 2048;
    RoundedIs(0x7FFF_FFFF_FFFF_FFFE, 10, 0x1F_FFFF_FFFF_FFFF, 1022);
    RoundedIs(0x7FFF_FFFF_FFFF_FFFF, 10, 0x1F_FFFF_FFFF_FFFF, 1023);
    RoundedIs(0x8000_0000_0000_0000, 11, 0x10_0000_0000_0000, 0);
  }

  /** Any other magnitude up to the top shares its float with a neighbour or with a multiple of its unit. */
  lemma {:induction false} Twin(m: nat, top: nat) returns (w: nat)
    requires !Alone(m) && m <= top && (top == 0x7FFF_FFFF_FFFF_FFFF || top == 0x8000_0000_0000_0000)
    ensures w != m && w <= top && Rounded(w) == Rounded(m)
  {
    hide Pow2, LostBits, Rounded;
    if m == top {
      RoundedTop();
      return m - 1;
    }
    var k, q, r := Unit(m);
    RoundedIs(m, k, q, r);
    SmallPowers();
    PowersGrow(1, k);
    var u := Pow2(k);
    if r != 0 && (2 * r < u || (2 * r == u && q % 2 == 0)) {
      w := q * u;
      RoundedIs(w, k, q, 0);
    } else if r + 1 < u {
      w := m + 1;
      TwinAbove(m, k, q, r);
    } else {
      w := m + 1;
      assert w == (q + 1) * u;
      NextMultiple(k, q);
    }
  }

  lemma {:induction false} TwinAbove(m: nat, k: nat, q: nat, r: nat)
    requires !Alone(m) && k > 0 && 0x10_0000_0000_0000 <= q < 0x20_0000_0000_0000 && m == q * Pow2(k) + r && r + 1 < Pow2(k)
    requires r == 0 || 2 * r > Pow2(k) || (2 * r == Pow2(k) && q % 2 != 0)
    ensures Rounded(m + 1) == Rounded(m)
  {
    hide Pow2, LostBits, Rounded;
    RoundedIs(m, k, q, r);
    RoundedIs(m + 1, k, q, r + 1);
    SmallPowers();
    if k > 1 { PowersGrow(2, k); }
  }

  lemma {:induction false} NextMultiple(k: nat, q: nat)
    requires k > 0 && 0x10_0000_0000_0000 <= q < 0x20_0000_0000_0000
    ensures Rounded((q + 1) * Pow2(k)) == (q + 1) * Pow2(k)
  {
    hide LostBits, Rounded;
    if q + 1 < 0x20_0000_0000_0000 {
      RoundedIs((q + 1) * Pow2(k), k, q + 1, 0);
    } else {
      assert Pow2(k + 1) == 2 * Pow2(k);
      RoundedIs(0x10_0000_0000_0000 * Pow2(k + 1), k + 1, 0x10_0000_0000_0000, 0);
    }
  }

  /**
   * Converting to a float tells a 64-bit integer from all others exactly
   * below 2^53, and between 2^53 and 2^54 for those that are 2 modulo 4.
   */
  lemma {:induction false} FloatTellsApart(v: i64)
    ensures (forall w: i64 :: AsFloat(w) == AsFloat(v) ==> w == v) <==> Alone(Magnitude(v))
  {
    hide Rounded;
    var m := Magnitude(v);
    if Alone(m) {
      forall w: i64 | AsFloat(w) == AsFloat(v) ensures w == v {
        RoundedSign(m);
        RoundedSign(Magnitude(w));
        AloneIsExact(m, Magnitude(w));
      }
    } else {
      var w := Twin(m, if v >= 0 then 0x7FFF_FFFF_FFFF_FFFF else 0x8000_0000_0000_0000);
      var n: i64 := if v >= 0 then w else 0 - w as int;
      RoundedSign(m);
      RoundedSign(w);
      assert AsFloat(n) == AsFloat(v) && n != v;
    }
  }

  lemma {:induction false} RoundedSign(m: nat)
    ensures Rounded(m) >= 0 && (Rounded(m) == 0 <==> m == 0)
  {
    hide Rounded;
    if m < 0x20_0000_0000_0000 { SmallIsExact(m); } else { RoundedLarge(m); }
  }

  // ------------------------------------------------------------ float patterns

  predicate Negative(bits: u64)
  {
    bits >= 0x8000_0000_0000_0000
  }

  function Exponent(bits: u64): nat
  {
    bits / 0x10_0000_0000_0000 % 0x800
  }

  function Mantissa(bits: u64): (m: nat)
    ensures m < 0x10_0000_0000_0000
  {
    bits % 0x10_0000_0000_0000
  }

  /** The magnitude of a float in units of 2^-1074.  An infinity is one step above every finite float. */
  function FloatMagnitude(bits: u64): nat
  {
    var e, m := Exponent(bits), Mantissa(bits);
    if e == 0 then m else (0x10_0000_0000_0000 + m) * Pow2(e - 1)
  }

  /** The number a pattern stands for, in units of 2^-1074. */
  function FloatNumber(bits: u64): int
  {
    if Negative(bits) then 0 - FloatMagnitude(bits) else FloatMagnitude(bits)
  }

  /** The number 1 in units of 2^-1074. */
  function One(): (r: nat)
    ensures r > 0
  {
    Pow2(1074)
  }

  /** The number of a converted integer, in the same units. */
  function IntNumber(n: int): int
  {
    AsFloat(n) * One()
  }

  lemma {:induction false} PowersMultiply(j: nat, k: nat)
    ensures Pow2(j + k) == Pow2(j) * Pow2(k)
    decreases k
  {
    if k > 0 { PowersMultiply(j, k - 1); }
  }

  lemma OneIs(j: nat, k: nat)
    requires j + k == 1074
    ensures One() == Pow2(j) * Pow2(k)
  {
    hide Pow2;
    PowersMultiply(j, k);
  }

  /** A greater exponent is a greater magnitude. */
  lemma {:induction false} MagnitudesOrdered(a: u64, b: u64)
    requires Exponent(a) < Exponent(b)
    ensures FloatMagnitude(a) < FloatMagnitude(b)
  {
    hide Pow2, Exponent, Mantissa;
    var e, f := Exponent(a), Exponent(b);
    TimesOrdered(0x10_0000_0000_0000, 0x10_0000_0000_0000 + Mantissa(b), Pow2(f - 1));
    if e > 0 {
      PowersGrow(e, f - 1);
      PowersMultiply(e - 1, 1);
      SmallPowers();
      TimesOrdered(0x10_0000_0000_0001 + Mantissa(a), 0x20_0000_0000_0000, Pow2(e - 1));
    }
  }

  lemma TimesEqual(a: nat, b: nat, u: nat)
    requires u > 0 && a * u == b * u
    ensures a == b
  {
  }

  lemma {:induction false} MagnitudeIsPattern(a: u64, b: u64)
    requires FloatMagnitude(a) == FloatMagnitude(b)
    ensures Exponent(a) == Exponent(b) && Mantissa(a) == Mantissa(b)
  {
    hide Pow2, Exponent, Mantissa;
    if Exponent(a) < Exponent(b) { MagnitudesOrdered(a, b); }
    if Exponent(b) < Exponent(a) { MagnitudesOrdered(b, a); }
    if Exponent(a) > 0 {
      TimesEqual(0x10_0000_0000_0000 + Mantissa(a), 0x10_0000_0000_0000 + Mantissa(b), Pow2(Exponent(a) - 1));
    }
  }

  /** Two patterns are one number only when both are zeros or they are the same. */
  lemma {:induction false} NumberIsPattern(a: u64, b: u64)
    requires FloatNumber(a) == FloatNumber(b) && FloatNumber(a) != 0
    ensures a == b
  {
    hide FloatMagnitude;
    MagnitudeIsPattern(a, b);
  }

  /** Zero has two patterns. */
  lemma ZeroTwice()
    ensures FloatNumber(0) == FloatNumber(0x8000_0000_0000_0000) == 0
  {
    hide Pow2;
    assert Exponent(0x8000_0000_0000_0000) == 0 && Mantissa(0x8000_0000_0000_0000) == 0;
  }

  // --------------------------------------------- which floats are 64-bit integers

  /** A whole number between -2^63 and 2^63, both included. */
  predicate WholeInRange(bits: u64)
  {
    var m := FloatMagnitude(bits);
    m % One() == 0 && m / One() <= 0x8000_0000_0000_0000
  }

  /** A magnitude that a float has is not rounded. */
  lemma {:induction false} WholeIsExact(bits: u64, x: nat)
    requires FloatMagnitude(bits) == x * One()
    ensures Rounded(x) == x
  {
    hide Pow2, One, Exponent, Mantissa, Rounded, FloatMagnitude;
    if x < 0x20_0000_0000_0000 {
      SmallIsExact(x);
    } else {
      TimesOrdered(0x20_0000_0000_0000, x, One());
      ExponentLarge(bits);
      LargeWhole(bits, x);
      RoundedIs(x, Exponent(bits) - 1075, 0x10_0000_0000_0000 + Mantissa(bits), 0);
    }
  }

  lemma {:induction false} LargeWhole(bits: u64, x: nat)
    requires FloatMagnitude(bits) == x * One() && Exponent(bits) >= 1076
    ensures x == (0x10_0000_0000_0000 + Mantissa(bits)) * Pow2(Exponent(bits) - 1075)
  {
    hide Pow2, One, Exponent, Mantissa, FloatMagnitude;
    var e, q := Exponent(bits), 0x10_0000_0000_0000 + Mantissa(bits);
    MagnitudeIs(bits);
    OneIs(1074, 0);
    SmallPowers();
    PowersMultiply(e - 1075, 1074);
    Cancel(x, q, Pow2(e - 1075), One());
  }

  lemma MagnitudeIs(bits: u64)
    ensures var e, m := Exponent(bits), Mantissa(bits);
            FloatMagnitude(bits) == if e == 0 then m else (0x10_0000_0000_0000 + m) * Pow2(e - 1)
  {
  }

  lemma {:induction false} Cancel(x: nat, q: nat, p: nat, u: nat)
    requires u > 0 && x * u == q * (p * u)
    ensures x == q * p
  {
    assert q * (p * u) == (q * p) * u;
    TimesEqual(x, q * p, u);
  }

  /** Numbers from 2^53 on have a large exponent. */
  lemma {:induction false} ExponentLarge(bits: u64)
    requires FloatMagnitude(bits) >= 0x20_0000_0000_0000 * One()
    ensures Exponent(bits) >= 1076
  {
    hide One, Exponent, FloatMagnitude;
    if Exponent(bits) < 1076 { ExponentSmall(bits); }
  }

  lemma {:induction false} ExponentSmall(bits: u64)
    requires Exponent(bits) < 1076
    ensures FloatMagnitude(bits) < 0x20_0000_0000_0000 * One()
  {
    hide Pow2, One, Exponent, Mantissa, FloatMagnitude;
    var e, q := Exponent(bits), 0x10_0000_0000_0000 + Mantissa(bits);
    MagnitudeIs(bits);
    if e > 0 {
      OneIs(1074, 0);
      SmallPowers();
      PowersGrow(e - 1, 1074);
      TimesOrdered(q + 1, 0x20_0000_0000_0000, Pow2(e - 1));
    }
  }

  lemma {:induction false} RoundedBound(m: nat)
    requires m <= 0x8000_0000_0000_0000
    ensures Rounded(m) <= 0x8000_0000_0000_0000
  {
    hide Pow2, LostBits, Rounded;
    if m < 0x20_0000_0000_0000 {
      SmallIsExact(m);
    } else if m == 0x8000_0000_0000_0000 {
      RoundedTop();
    } else {
      var k, q, r := Unit(m);
      RoundedIs(m, k, q, r);
      TenBits();
      TimesOrdered(0x10_0000_0000_0000, q, Pow2(k));
      if k > 10 { PowersGrow(11, k); }
      PowersGrow(k, 10);
      TimesOrdered(q, q + 1, Pow2(k));
      TimesOrdered(q + 1, 0x20_0000_0000_0000, Pow2(k));
    }
  }

  lemma TenBits()
    ensures Pow2(10) == 1024 && Pow2(11) == 2048
  {
    assert Pow2(5) == 32;
  }

  /** An integer converts to a float exactly when the float is whole and in range. */
  lemma {:induction false} FloatOfSomeInt(bits: u64)
    ensures (exists n: i64 :: IntNumber(n) == FloatNumber(bits)) <==> WholeInRange(bits)
  {
    hide One, FloatMagnitude, Rounded;
    if n: i64 :| IntNumber(n) == FloatNumber(bits) {
      RoundedBound(Magnitude(n));
      RoundedSign(Magnitude(n));
      SameMagnitude(Rounded(Magnitude(n)), bits, n);
      DivideBack(Rounded(Magnitude(n)), One(), 0);
    }
    if WholeInRange(bits) {
      var x := FloatMagnitude(bits) / One();
      assert FloatMagnitude(bits) == x * One();
      WholeIsExact(bits, x);
      var n: i64 := SomeInt(x, Negative(bits));
      assert IntNumber(n) == FloatNumber(bits);
    }
  }

  lemma {:induction false} SameMagnitude(r: nat, bits: u64, n: i64)
    requires r == Rounded(Magnitude(n)) && IntNumber(n) == FloatNumber(bits)
    ensures FloatMagnitude(bits) == r * One()
  {
    hide One, FloatMagnitude, Rounded;
    if n < 0 { assert IntNumber(n) == (0 - r) * One() == 0 - r * One(); }
  }

  /** An integer with that magnitude as a float; the greatest one when 2^63 itself is out of reach. */
  lemma {:induction false} SomeInt(x: nat, negative: bool) returns (n: i64)
    requires x <= 0x8000_0000_0000_0000 && Rounded(x) == x
    ensures AsFloat(n) == if negative then 0 - x else x
  {
    hide Rounded;
    if negative {
      n := 0 - x;
    } else if x < 0x8000_0000_0000_0000 {
      n := x;
    } else {
      RoundedTop();
      n := 0x7FFF_FFFF_FFFF_FFFF;
    }
  }

  // ------------------------------------------------- every integer is some float

  /** The pattern put together from its parts. */
  function Pattern(negative: bool, e: nat, m: nat): (bits: u64)
    requires e < 0x800 && m < 0x10_0000_0000_0000
    ensures Negative(bits) == negative && Exponent(bits) == e && Mantissa(bits) == m
  {
    (if negative then 0x8000_0000_0000_0000 else 0) + e * 0x10_0000_0000_0000 + m
  }

  lemma {:induction false} Normalise(m: nat) returns (q: nat, j: nat)
    requires 0 < m < 0x20_0000_0000_0000
    ensures 0x10_0000_0000_0000 <= q < 0x20_0000_0000_0000 && q == m * Pow2(j)
    decreases 0x20_0000_0000_0000 - m
  {
    if m >= 0x10_0000_0000_0000 {
      q, j := m, 0;
      SmallPowers();
    } else {
      var i;
      q, i := Normalise(2 * m);
      j := i + 1;
      assert Pow2(j) == 2 * Pow2(i);
    }
  }

  /** A rounded magnitude is a 53-bit number times a power of two, counted in units of 2^-1074. */
  lemma {:induction false} FloatParts(m: nat) returns (q: nat, x: nat)
    requires 0 < m <= 0x8000_0000_0000_0000
    ensures 0x10_0000_0000_0000 <= q < 0x20_0000_0000_0000 && x < 2046 && Rounded(m) * One() == q * Pow2(x)
  {
    hide Pow2, LostBits, Rounded, One;
    if m < 0x20_0000_0000_0000 {
      q, x := SmallParts(m);
    } else {
      var s, k := LargeParts(m);
      OneIs(1074, 0);
      SmallPowers();
      PowersMultiply(k, 1074);
      q, x := s, k + 1074;
      assert s * Pow2(k) * One() == s * (Pow2(k) * One());
    }
  }

  lemma {:induction false} SmallParts(m: nat) returns (q: nat, x: nat)
    requires 0 < m < 0x20_0000_0000_0000
    ensures 0x10_0000_0000_0000 <= q < 0x20_0000_0000_0000 && x < 2046 && Rounded(m) * One() == q * Pow2(x)
  {
    hide Pow2, Rounded, One;
    SmallIsExact(m);
    var j;
    q, j := Normalise(m);
    if j > 1074 { SmallShift(m, j); }
    x := 1074 - j;
    OneIs(j, x);
    assert m * (Pow2(j) * Pow2(x)) == q * Pow2(x);
  }

  lemma {:induction false} LargeParts(m: nat) returns (q: nat, k: nat)
    requires 0x20_0000_0000_0000 <= m <= 0x8000_0000_0000_0000
    ensures 0x10_0000_0000_0000 <= q < 0x20_0000_0000_0000 && k <= 12 && Rounded(m) == q * Pow2(k)
  {
    hide Pow2, LostBits, Rounded;
    var p, r;
    k, p, r := Unit(m);
    RoundedIs(m, k, p, r);
    LargeShift(m, k, p);
    q := if 2 * r < Pow2(k) || (2 * r == Pow2(k) && p % 2 == 0) then p else p + 1;
    if q == 0x20_0000_0000_0000 {
      PowersMultiply(k, 1);
      SmallPowers();
      q, k := 0x10_0000_0000_0000, k + 1;
    }
  }

  lemma {:induction false} SmallShift(m: nat, j: nat)
    requires m > 0 && j > 1074
    ensures m * Pow2(j) >= 0x20_0000_0000_0000
  {
    hide Pow2;
    PowersGrow(55, j);
    TenBits();
    PowersMultiply(11, 11);
    PowersMultiply(22, 22);
    PowersMultiply(44, 11);
    TimesOrdered(1, m, Pow2(j));
  }

  lemma {:induction false} LargeShift(m: nat, k: nat, p: nat)
    requires p >= 0x10_0000_0000_0000 && p * Pow2(k) <= m <= 0x8000_0000_0000_0000
    ensures k <= 11
  {
    hide Pow2;
    if k > 11 {
      TenBits();
      PowersMultiply(11, 1);
      SmallPowers();
      PowersGrow(12, k);
      TimesOrdered(0x10_0000_0000_0000, p, Pow2(k));
    }
  }

  /** A float with the number of the integer: what converting it gives. */
  lemma {:induction false} FloatOf(n: i64) returns (bits: u64)
    ensures !IsNaN(bits) && FloatNumber(bits) == IntNumber(n)
  {
    hide Pow2, Rounded, One, Exponent, Mantissa, Negative, FloatMagnitude;
    var m := Magnitude(n);
    if m == 0 {
      RoundedSign(0);
      ZeroTwice();
      bits := 0;
    } else {
      var q, x := FloatParts(m);
      bits := Pattern(n < 0, x + 1, q - 0x10_0000_0000_0000);
      MagnitudeIs(bits);
      NotNaN(bits);
      if n < 0 { assert (0 - Rounded(m)) * One() == 0 - Rounded(m) * One(); }
    }
  }

  lemma NotNaN(bits: u64)
    requires Exponent(bits) < 0x7FF
    ensures !IsNaN(bits)
  {
  }
}
