// Bytes and the fixed-width little-endian words that the C code reads and
// writes through pointers.  Words are unbounded naturals with explicit ranges.
module Bytes {

  type u8 = x: int | 0 <= x < 256

  type bytes = seq<u8>

  const U16: int := 0x1_0000
  const U32: int := 0x1_0000_0000
  const U64: int := 0x1_0000_0000_0000_0000
  const I64MIN: int := -0x8000_0000_0000_0000
  const I64MAX: int := 0x7fff_ffff_ffff_ffff

  predicate IsI64(v: int) { I64MIN <= v <= I64MAX }

  /** memcpy(s + i, w, |w|) on a buffer. */
  function Splice(s: bytes, i: nat, w: bytes): (r: bytes)
    requires i + |w| <= |s|
    ensures |r| == |s|
    ensures r[..i] == s[..i] && r[i..i + |w|] == w && r[i + |w|..] == s[i + |w|..]
  {
    s[..i] + w + s[i + |w|..]
  }

  /** zrealloc: the common prefix survives, added bytes are indeterminate. */
  method Realloc(s: bytes, n: nat) returns (r: bytes)
    ensures |r| == n
    ensures n <= |s| ==> r == s[..n]
    ensures |s| <= n ==> r[..|s|] == s
  {
    if n <= |s| {
      r := s[..n];
    } else {
      r := s + seq(n - |s|, _ => 0);
    }
  }

  /** Little-endian stores and loads of 16, 32 and 64-bit unsigned words. */
  function Le2(n: nat): (r: bytes)
    requires n < U16
    ensures |r| == 2
  {
    [n % 256, n / 256]
  }

  /** Storing into a 32-bit word keeps the low 32 bits. */
  function Le4(n: nat): (r: bytes)
    ensures |r| == 4
  {
    [n % 256, n / 256 % 256, n / 65536 % 256, n / 16777216 % 256]
  }

  function Le8(n: nat): (r: bytes)
    requires n < U64
    ensures |r| == 8
  {
    Le4(n % U32) + Le4(n / U32)
  }

  /** Reinterpret an unsigned word of the given modulus as two's complement. */
  function Signed2(n: nat, modulus: nat): int {
    if 2 * n < modulus then n else n - modulus
  }

  function Get2(s: bytes, i: nat): (n: nat)
    requires i + 2 <= |s|
    ensures n < U16
  {
    s[i] as int + 256 * s[i + 1] as int
  }

  function Get4(s: bytes, i: nat): (n: nat)
    requires i + 4 <= |s|
    ensures n < U32
  {
    s[i] as int + 256 * s[i + 1] as int + 65536 * s[i + 2] as int + 16777216 * s[i + 3] as int
  }

  function Get8(s: bytes, i: nat): (n: nat)
    requires i + 8 <= |s|
    ensures n < U64
  {
    Get4(s, i) + U32 * Get4(s, i + 4)
  }

  /** A load returns what was stored, whatever surrounds it. */
  lemma Get4OfLe4(s: bytes, i: nat, n: nat)
    requires i + 4 <= |s| && n < U32 && s[i..i + 4] == Le4(n)
    ensures Get4(s, i) == n
  {
    var w := Le4(n);
    assert s[i] == s[i..i + 4][0] && s[i + 1] == s[i..i + 4][1];
    assert s[i + 2] == s[i..i + 4][2] && s[i + 3] == s[i..i + 4][3];
    FourBytes(n);
    hide Le4;
    assert Get4(s, i) == w[0] as int + 256 * w[1] as int + 65536 * w[2] as int + 16777216 * w[3] as int;
  }

  lemma FourBytes(n: nat)
    requires n < U32
    ensures var w := Le4(n);
            w[0] as int + 256 * w[1] as int + 65536 * w[2] as int + 16777216 * w[3] as int == n
  {
    var a, b, c := n / 256, n / 65536, n / 16777216;
    assert b == a / 256 && c == b / 256 && c < 256;
  }

  lemma Get2OfLe2(s: bytes, i: nat, n: nat)
    requires i + 2 <= |s| && n < U16 && s[i..i + 2] == Le2(n)
    ensures Get2(s, i) == n
  {
    var w := s[i..i + 2];
    assert s[i] == w[0] && s[i + 1] == w[1];
  }

  lemma Get8OfLe8(n: nat)
    requires n < U64
    ensures Get8(Le8(n), 0) == n
  {
    Get4OfLe4(Le8(n), 0, n % U32);
    Get4OfLe4(Le8(n), 4, n / U32);
  }
}
