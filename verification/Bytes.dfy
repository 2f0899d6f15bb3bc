/** Byte strings, their lexicographic order, and little-endian integers. */
module Bytes {

  type byte = b: int | 0 <= b < 256
  type bytes = seq<byte>
  type u32 = n: int | 0 <= n < 0x1_0000_0000
  type u64 = n: int | 0 <= n < 0x1_0000_0000_0000_0000

  // ---------------------------------------------------------------- order

  /** `bytes.Compare`: -1, 0 or 1 as `a` is below, equal to or above `b`. */
  function Compare(a: bytes, b: bytes): (r: int)
    ensures -1 <= r <= 1
    decreases |a|
  {
    if a == [] then if b == [] then 0 else -1
    else if b == [] then 1
    else if a[0] < b[0] then -1
    else if a[0] > b[0] then 1
    else Compare(a[1..], b[1..])
  }

  /**
   * An order embedding of byte strings into the reals in [0, 1): each byte,
   * shifted by one, is a digit of a fraction in base 257.  Comparing ranks is
   * comparing strings (`CompareIsRankOrder`), which turns the total order into
   * arithmetic.
   */
  ghost function Rank(a: bytes): (r: real)
    ensures 0.0 <= r < 1.0
  {
    if a == [] then 0.0 else ((a[0] as int + 1) as real + Rank(a[1..])) / 257.0
  }

  lemma {:induction false} CompareIsRankOrder(a: bytes, b: bytes)
    ensures Compare(a, b) < 0 <==> Rank(a) < Rank(b)
    ensures Compare(a, b) > 0 <==> Rank(a) > Rank(b)
    ensures Compare(a, b) == 0 <==> a == b
    ensures Rank(a) == Rank(b) <==> a == b
    decreases |a|
  {
    if a != [] && b != [] {
      CompareIsRankOrder(a[1..], b[1..]);
      if a[0] == b[0] && a[1..] == b[1..] {
        assert a == [a[0]] + a[1..] && b == [b[0]] + b[1..];
      }
    }
  }

  // ------------------------------------------------- little-endian integers

  function Le16(n: nat): (r: bytes)
    requires n < 0x1_0000
    ensures |r| == 2
  {
    [n % 256, n / 256]
  }

  function Get16(s: bytes): (n: nat)
    requires |s| == 2
    ensures n < 0x1_0000
  {
    s[0] as int + 256 * (s[1] as int)
  }

  function Le32(n: u32): (r: bytes)
    ensures |r| == 4
  {
    Le16(n % 0x1_0000) + Le16(n / 0x1_0000)
  }

  function Get32(s: bytes): (n: u32)
    requires |s| == 4
  {
    Get16(s[..2]) + 0x1_0000 * Get16(s[2..])
  }

  function Le64(n: u64): (r: bytes)
    ensures |r| == 8
  {
    Le32(n % 0x1_0000_0000) + Le32(n / 0x1_0000_0000)
  }

  function Get64(s: bytes): (n: u64)
    requires |s| == 8
  {
    Get32(s[..4]) + 0x1_0000_0000 * Get32(s[4..])
  }

  lemma RoundTrip16(n: nat)
    requires n < 0x1_0000
    ensures Get16(Le16(n)) == n
  {
  }

  lemma RoundTrip32(n: u32)
    ensures Get32(Le32(n)) == n
  {
    var lo, hi := Le16(n % 0x1_0000), Le16(n / 0x1_0000);
    assert Le32(n)[..2] == lo && Le32(n)[2..] == hi;
  }

  lemma RoundTrip64(n: u64)
    ensures Get64(Le64(n)) == n
  {
    var lo, hi := n % 0x1_0000_0000, n / 0x1_0000_0000;
    assert Le64(n)[..4] == Le32(lo) && Le64(n)[4..] == Le32(hi);
    RoundTrip32(lo);
    RoundTrip32(hi);
  }

  /** Every byte string of the right length is the encoding of what it decodes to. */
  lemma Reencode16(s: bytes)
    requires |s| == 2
    ensures Le16(Get16(s)) == s
  {
  }

  lemma Reencode32(s: bytes)
    requires |s| == 4
    ensures Le32(Get32(s)) == s
  {
    Reencode16(s[..2]);
    Reencode16(s[2..]);
    var lo, hi := Get16(s[..2]), Get16(s[2..]);
    assert Get32(s) % 0x1_0000 == lo && Get32(s) / 0x1_0000 == hi;
    assert s == s[..2] + s[2..];
  }

  lemma Reencode64(s: bytes)
    requires |s| == 8
    ensures Le64(Get64(s)) == s
  {
    Reencode32(s[..4]);
    Reencode32(s[4..]);
    var lo, hi := Get32(s[..4]), Get32(s[4..]);
    assert Get64(s) % 0x1_0000_0000 == lo && Get64(s) / 0x1_0000_0000 == hi;
    assert s == s[..4] + s[4..];
  }
}
