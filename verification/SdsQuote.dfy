// Quoting of arguments (sds.c), with the character classes of the C locale.
module SdsQuote {
  import opened Bytes
  import opened Sequences

  const NUL: u8 := 0
  const QUOTE: u8 := 34
  const APOS: u8 := 39
  const BACKSLASH: u8 := 92
  const SPACE: u8 := 32

  predicate IsPrint(c: u8) { 32 <= c < 127 }

  predicate IsSpace(c: u8) { c == 32 || 9 <= c <= 13 }

  predicate IsHexDigit(c: u8) { 48 <= c <= 57 || 97 <= c <= 102 || 65 <= c <= 70 }

  function HexDigitToInt(c: u8): (v: nat)
    ensures v < 16
  {
    if 48 <= c <= 57 then c - 48
    else if 97 <= c <= 102 then c - 87
    else if 65 <= c <= 70 then c - 55
    else 0
  }

  /** The digits are those of "0123456789abcdef", in either case; anything else
      counts as 0. */
  lemma HexDigits(c: u8)
    ensures IsHexDigit(c) ==> HexOf(HexDigitToInt(c)) == if 65 <= c <= 70 then c + 32 else c
    ensures !IsHexDigit(c) ==> HexDigitToInt(c) == 0
    ensures IsHexDigit(c) <==> (exists v: nat :: v < 16 && c == HexOf(v)) || c in [65, 66, 67, 68, 69, 70]
  {
    if IsHexDigit(c) && c >= 97 {
      assert c == HexOf(c - 87);
    } else if IsHexDigit(c) && c <= 57 {
      assert c == HexOf(c - 48);
    }
  }

  lemma HexText(v: nat)
    requires v < 16
    ensures HexOf(v) == [48, 49, 50, 51, 52, 53, 54, 55, 56, 57, 97, 98, 99, 100, 101, 102][v]
  {}

  /** The spaces are \t to \r and the blank. */
  lemma Spaces(c: u8)
    ensures IsSpace(c) <==> c in [9, 10, 11, 12, 13, 32]
  {}

  /** A digit of "%02x". */
  function HexOf(v: nat): u8
    requires v < 16
  {
    if v < 10 then 48 + v else 87 + v
  }

  // ----------------------------------------------------------------- quoting

  function Escape(c: u8): (r: bytes)
    ensures |r| >= 1
  {
    if c == BACKSLASH || c == QUOTE then [BACKSLASH, c]
    else if c == 10 then [BACKSLASH, 110]
    else if c == 13 then [BACKSLASH, 114]
    else if c == 9 then [BACKSLASH, 116]
    else if c == 7 then [BACKSLASH, 97]
    else if c == 8 then [BACKSLASH, 98]
    else if IsPrint(c) then [c]
    else [BACKSLASH, 120, HexOf(c / 16), HexOf(c % 16)]
  }

  function Escaped(a: bytes): bytes {
    if a == [] then [] else Escape(a[0]) + Escaped(a[1..])
  }

  function Repr(a: bytes): bytes { [QUOTE] + Escaped(a) + [QUOTE] }

  lemma {:induction false} EscapedAppend(a: bytes, c: u8)
    ensures Escaped(a + [c]) == Escaped(a) + Escape(c)
  {
    hide Escape;
    if a == [] {
      assert ([c])[1..] == [];
    } else {
      assert (a + [c])[1..] == a[1..] + [c];
      EscapedAppend(a[1..], c);
    }
  }

  lemma EscapePrintable(c: u8)
    ensures forall i :: 0 <= i < |Escape(c)| ==> 32 <= Escape(c)[i] < 127
    ensures 32 <= c < 127 && c != 34 && c != 92 ==> Escape(c) == [c]
  {}

  /** A quoted form is printable throughout, and a string of printable bytes other
      than the quote and the backslash stands in it as it is. */
  lemma {:induction false} EscapedPrintable(a: bytes)
    ensures forall i :: 0 <= i < |Escaped(a)| ==> 32 <= Escaped(a)[i] < 127
    ensures (forall i :: 0 <= i < |a| ==> 32 <= a[i] < 127 && a[i] != 34 && a[i] != 92) ==> Escaped(a) == a
  {
    if a != [] {
      EscapedPrintable(a[1..]);
      EscapePrintable(a[0]);
      hide Escape;
      if forall i :: 0 <= i < |a| ==> 32 <= a[i] < 127 && a[i] != 34 && a[i] != 92 {
        assert a == [a[0]] + a[1..] && forall i :: 0 <= i < |a[1..]| ==> a[1..][i] == a[i + 1];
      }
    }
  }

  /** sdscatrepr. */
  method SdsCatRepr(s: bytes, p: bytes) returns (r: bytes)
    ensures r == s + Repr(p)
  {
    hide Escaped;
    r := s + [QUOTE];
    var i := 0;
    NothingEscaped();
    while i < |p|
      invariant i <= |p| && r == s + [QUOTE] + Escaped(p[..i])
    {
      var c := p[i];
      EscapedAppend(p[..i], c);
      assert p[..i] + [c] == p[..i + 1];
      Assoc(s + [QUOTE], Escaped(p[..i]), Escape(c));
      if c == BACKSLASH || c == QUOTE {
        r := r + [BACKSLASH, c];
      } else if c == 10 {
        r := r + [BACKSLASH, 110];
      } else if c == 13 {
        r := r + [BACKSLASH, 114];
      } else if c == 9 {
        r := r + [BACKSLASH, 116];
      } else if c == 7 {
        r := r + [BACKSLASH, 97];
      } else if c == 8 {
        r := r + [BACKSLASH, 98];
      } else if IsPrint(c) {
        r := r + [c];
      } else {
        r := r + [BACKSLASH, 120, HexOf(c / 16), HexOf(c % 16)];
      }
      i := i + 1;
    }
    assert p[..i] == p;
    r := r + [QUOTE];
  }

  lemma NothingEscaped()
    ensures Escaped([]) == []
  {}
}
