// Integer text (util.c): ll2string, string2ll, digits10 and sdigits10.
module Util {
  import opened Bytes

  const ZERO: u8 := 48
  const MINUS: u8 := 45

  /** The decimal digits of n, most significant first. */
  function Dec(n: nat): (r: bytes)
    ensures |r| >= 1
  {
    if n < 10 then [ZERO + n] else Dec(n / 10) + [ZERO + n % 10]
  }

  /** The text of an integer: digits with a leading minus when negative. */
  function Text(v: int): bytes {
    if v < 0 then [MINUS] + Dec(-v) else Dec(v)
  }

  predicate IsDigit(c: u8) { 48 <= c <= 57 }

  predicate AllDigits(s: bytes) { forall i :: 0 <= i < |s| ==> IsDigit(s[i]) }

  /** The number that a digit string denotes. */
  function Val(s: bytes): nat
    requires AllDigits(s)
  {
    if s == [] then 0
    else
      var c := s[|s| - 1];
      assert IsDigit(c);
      10 * Val(s[..|s| - 1]) + (c - ZERO)
  }

  /** Digits only, not empty, no leading zero except in "0" itself. */
  predicate Canonical(s: bytes) {
    |s| >= 1 && AllDigits(s) && (s[0] == ZERO ==> |s| == 1)
  }

  lemma {:induction false} ValOfDec(n: nat)
    ensures Canonical(Dec(n)) && Val(Dec(n)) == n
    ensures n > 0 ==> Dec(n)[0] != ZERO
  {
    if n >= 10 {
      ValOfDec(n / 10);
      assert Dec(n)[..|Dec(n)| - 1] == Dec(n / 10);
    } else {
      assert Dec(n)[..0] == [];
    }
  }

  lemma {:induction false} DecOfVal(s: bytes)
    requires Canonical(s)
    ensures Dec(Val(s)) == s
    ensures s[0] != ZERO ==> Val(s) > 0
  {
    var t := s[..|s| - 1];
    if |s| == 1 {
      assert t == [];
      assert s == [s[0]];
    } else {
      DecOfVal(t);
      assert s == t + [s[|s| - 1]];
    }
  }

  /** Different integers have different texts. */
  lemma TextInjective(v: int, w: int)
    requires Text(v) == Text(w)
    ensures v == w
  {
    ValOfDec(if v < 0 then -v else v);
    ValOfDec(if w < 0 then -w else w);
    if v < 0 && w < 0 {
      assert Text(v)[1..] == Dec(-v) && Text(w)[1..] == Dec(-w);
    }
  }

  /** A longer digit string denotes a number at least as large. */
  lemma {:induction false} ValGrows(s: bytes, k: nat)
    requires AllDigits(s)
    requires k <= |s|
    ensures Val(s[..k]) <= Val(s)
    ensures k < |s| ==> 10 * Val(s[..k]) + (s[k] - ZERO) <= Val(s)
    decreases |s|
  {
    if k == |s| {
      assert s[..k] == s;
    } else {
      var t := s[..|s| - 1];
      ValGrows(t, k);
      assert t[..k] == s[..k];
    }
  }

  function Pow10(k: nat): (r: nat)
    ensures r >= 1
  {
    if k == 0 then 1 else 10 * Pow10(k - 1)
  }

  lemma {:induction false} DecLength(v: nat, k: nat)
    requires k >= 1 && v < Pow10(k) && (k > 1 ==> Pow10(k - 1) <= v)
    ensures |Dec(v)| == k
  {
    if k > 1 {
      DecLength(v / 10, k - 1);
    }
  }

  lemma DecDropThree(v: nat)
    requires v >= 1000
    ensures |Dec(v)| == 3 + |Dec(v / 1000)|
  {
    assert v / 10 / 10 == v / 100 && v / 100 / 10 == v / 1000;
    assert |Dec(v)| == 1 + |Dec(v / 10)|;
    assert |Dec(v / 10)| == 1 + |Dec(v / 100)|;
    assert |Dec(v / 100)| == 1 + |Dec(v / 1000)|;
  }

  function Digits10(v: nat): nat {
    if v < 10 then 1
    else if v < 100 then 2
    else if v < 1000 then 3
    else if v < 1000000000000 then
      if v < 100000000 then
        if v < 1000000 then
          if v < 10000 then 4 else 5 + (if v >= 100000 then 1 else 0)
        else 7 + (if v >= 10000000 then 1 else 0)
      else if v < 10000000000 then 9 + (if v >= 1000000000 then 1 else 0)
      else 11 + (if v >= 100000000000 then 1 else 0)
    else 12 + Digits10(v / 1000000000000)
  }

  function Sdigits10(v: int): nat {
    if v < 0 then Digits10(-v) + 1 else Digits10(v)
  }

  lemma Powers()
    ensures Pow10(0) == 1 && Pow10(1) == 10 && Pow10(2) == 100 && Pow10(3) == 1000
    ensures Pow10(4) == 10000 && Pow10(5) == 100000 && Pow10(6) == 1000000
    ensures Pow10(7) == 10000000 && Pow10(8) == 100000000 && Pow10(9) == 1000000000
    ensures Pow10(10) == 10000000000 && Pow10(11) == 100000000000
    ensures Pow10(12) == 1000000000000
  {
    assert Pow10(3) == 10 * Pow10(2);
    assert Pow10(6) == 10 * Pow10(5) == 100 * Pow10(4) == 1000 * Pow10(3);
    assert Pow10(9) == 10 * Pow10(8) == 100 * Pow10(7) == 1000 * Pow10(6);
    assert Pow10(12) == 10 * Pow10(11) == 100 * Pow10(10) == 1000 * Pow10(9);
  }

  /** The comparison ladder of digits10 counts exactly the digits of v. */
  lemma {:induction false} Digits10Exact(v: nat)
    ensures Digits10(v) == |Dec(v)|
  {
    Powers();
    if v >= 1000000000000 {
      DecDropThree(v);
      DecDropThree(v / 1000);
      DecDropThree(v / 1000000);
      DecDropThree(v / 1000000000);
      Digits10Exact(v / 1000000000000);
    } else {
      DecLength(v, Digits10(v));
    }
  }

  /** stringObjectLen of an integer object is the length of its text. */
  lemma Sdigits10Exact(v: int)
    ensures Sdigits10(v) == |Text(v)|
  {
    Digits10Exact(if v < 0 then -v else v);
  }

  /** Entry i of the table "000102...99". */
  function DigitPairs(i: nat): u8
    requires i < 200
  {
    if i % 2 == 0 then ZERO + i / 2 / 10 else ZERO + i / 2 % 10
  }

  function Signed(negative: bool, v: nat): (r: bytes)
    ensures |r| >= 1
  {
    if negative then [MINUS] + Dec(v) else Dec(v)
  }

  /** One turn of the two-digits-at-a-time loop. */
  lemma DecPair(text: bytes, m: nat, negative: bool, v: nat)
    requires v >= 100 && m <= |text| && text[..m] == Signed(negative, v)
    ensures m >= 2 && text[..m - 2] == Signed(negative, v / 100) && |text[..m - 2]| >= 1
    ensures text[m - 2] == DigitPairs(v % 100 * 2) && text[m - 1] == DigitPairs(v % 100 * 2 + 1)
  {
    assert v / 10 / 10 == v / 100 && v / 10 % 10 == v % 100 / 10;
    assert Dec(v) == Dec(v / 10) + [ZERO + v % 10];
    assert Dec(v / 10) == Dec(v / 100) + [ZERO + v % 100 / 10];
    assert text[..m] == Signed(negative, v / 100) + [DigitPairs(v % 100 * 2), DigitPairs(v % 100 * 2 + 1)];
    assert text[..m - 2] == text[..m][..m - 2];
    assert text[..m][m - 2] == text[m - 2] && text[..m][m - 1] == text[m - 1];
  }

  /** The last one or two digits and the sign. */
  lemma DecLast(text: bytes, m: nat, negative: bool, v: nat)
    requires v < 100 && m <= |text| && text[..m] == Signed(negative, v)
    ensures m == (if negative then 1 else 0) + (if v < 10 then 1 else 2)
    ensures negative ==> text[0] == MINUS
    ensures if v < 10 then text[m - 1] == ZERO + v
            else text[m - 2] == DigitPairs(v * 2) && text[m - 1] == DigitPairs(v * 2 + 1)
  {
    assert Dec(v) == if v < 10 then [ZERO + v] else [ZERO + v / 10, ZERO + v % 10];
    assert forall j :: 0 <= j < m ==> text[j] == text[..m][j];
  }

  /** The write loop of ll2string, filling dst[..length] from the back. */
  method WriteDigits(dst: array<u8>, length: nat, negative: bool, v: nat, ghost text: bytes)
    requires text == Signed(negative, v) && length == |text| < dst.Length
    modifies dst
    ensures forall j :: 0 <= j < length ==> dst[j] == text[j]
    ensures forall j :: length <= j < dst.Length ==> dst[j] == old(dst[j])
  {
    hide Dec, Signed;
    var value := v;
    var next: int := length - 1;
    assert text[..length] == text;
    while value >= 100
      invariant 0 <= next < length
      invariant text[..next + 1] == Signed(negative, value)
      invariant forall j :: next < j < length ==> dst[j] == text[j]
      invariant forall j :: length <= j < dst.Length ==> dst[j] == old(dst[j])
    {
      DecPair(text, next + 1, negative, value);
      var i := value % 100 * 2;
      value := value / 100;
      dst[next] := DigitPairs(i + 1);
      dst[next - 1] := DigitPairs(i);
      next := next - 2;
    }
    DecLast(text, next + 1, negative, value);
    if value < 10 {
      dst[next] := ZERO + value;
    } else {
      var i := value * 2;
      dst[next] := DigitPairs(i + 1);
      dst[next - 1] := DigitPairs(i);
    }
    if negative { dst[0] := MINUS; }
  }

  method Ll2String(dst: array<u8>, dstlen: nat, svalue: int) returns (n: nat)
    requires IsI64(svalue) && dstlen <= dst.Length
    modifies dst
    ensures |Text(svalue)| >= dstlen ==> n == 0 && dst[..] == old(dst[..])
    ensures |Text(svalue)| < dstlen ==>
              && n == |Text(svalue)|
              && dst[..] == Text(svalue) + [0] + old(dst[..])[n + 1..]
  {
    var value: nat := if svalue < 0 then -svalue else svalue;
    var negative := svalue < 0;
    Digits10Exact(value);
    var length := Digits10(value) + if negative then 1 else 0;
    if length >= dstlen { return 0; }
    dst[length] := 0;
    WriteDigits(dst, length, negative, value, Text(svalue));
    return length;
  }

  ghost predicate IsIntText(s: bytes) {
    exists v :: IsI64(v) && Text(v) == s
  }

  /** The grammar of integer texts and the number each one denotes. */
  ghost predicate Shape(s: bytes, v: int) {
    |s| >= 1 &&
    if s[0] == MINUS then
      Canonical(s[1..]) && s[1] != ZERO && v + Val(s[1..]) == 0
    else
      Canonical(s) && v == Val(s)
  }

  lemma TextShape(s: bytes, v: int)
    ensures Text(v) == s <==> Shape(s, v)
  {
    if Text(v) == s {
      ValOfDec(if v < 0 then -v else v);
      if v < 0 { assert s[1..] == Dec(-v); }
    } else if Shape(s, v) {
      DecOfVal(if s[0] == MINUS then s[1..] else s);
    }
  }

  lemma IntTextShape(s: bytes)
    ensures IsIntText(s) <==> exists v :: IsI64(v) && Shape(s, v)
  {
    forall v ensures Text(v) == s <==> Shape(s, v) { TextShape(s, v); }
  }

  lemma NextDigit(d: bytes, k: nat)
    requires k < |d| && AllDigits(d[..k]) && IsDigit(d[k])
    ensures AllDigits(d[..k + 1]) && Val(d[..k + 1]) == 10 * Val(d[..k]) + (d[k] - ZERO)
  {
    assert d[..k + 1][..k] == d[..k];
  }

  /** string2ll accepts exactly the texts ll2string writes for 64-bit values. */
  method String2Ll(s: bytes) returns (ok: bool, value: int)
    ensures ok <==> IsIntText(s)
    ensures ok ==> IsI64(value) && Text(value) == s
  {
    IntTextShape(s);
    if |s| == 0 { return false, 0; }
    if |s| == 1 && s[0] == ZERO {
      assert Text(0) == s;
      return true, 0;
    }
    var negative := 0;
    if s[0] == MINUS {
      negative := 1;
      if |s| == 1 { return false, 0; }
    }
    if !('1' as int <= s[negative] <= '9' as int) {
      return false, 0;
    }
    ghost var d := s[negative..];
    assert negative == 0 ==> d == s;
    assert d[..1][..0] == [];
    var v := s[negative] - ZERO;
    var plen := 1;
    while negative + plen < |s| && '0' as int <= s[negative + plen] <= '9' as int
      invariant 1 <= plen <= |d|
      invariant AllDigits(d[..plen]) && v == Val(d[..plen]) < U64
    {
      NextDigit(d, plen);
      if v > (U64 - 1) / 10 || 10 * v > U64 - 1 - (s[negative + plen] - ZERO) {
        if AllDigits(d) { ValGrows(d, plen); }
        return false, 0;
      }
      v := v * 10 + (s[negative + plen] - ZERO);
      plen := plen + 1;
    }
    if negative + plen < |s| {
      assert !IsDigit(d[plen]);
      return false, 0;
    }
    assert d[..plen] == d;
    if negative == 1 {
      if v > 0x8000_0000_0000_0000 { return false, 0; }
      TextShape(s, -v);
      return true, -v;
    } else {
      if v > I64MAX { return false, 0; }
      TextShape(s, v);
      return true, v;
    }
  }
}
