// One ziplist entry (ziplist.c): the prevlen field, the encoding/length header
// and the payload, with the readers and writers the C macros implement.
module ZiplistEntry {
  import opened Bytes
  import opened Util

  const ZIP_END: u8 := 255
  const ZIP_BIGLEN: u8 := 254
  const ZIP_STR_14B: u8 := 0x40
  const ZIP_STR_32B: u8 := 0x80
  const ZIP_STR_MASK: u8 := 0xc0
  const ZIP_INT_16B: u8 := 0xc0
  const ZIP_INT_32B: u8 := 0xd0
  const ZIP_INT_64B: u8 := 0xe0
  const ZIP_INT_24B: u8 := 0xf0
  const ZIP_INT_8B: u8 := 0xfe
  const ZIP_INT_IMM_MIN: u8 := 0xf1
  const ZIP_INT_IMM_MAX: u8 := 0xfd

  predicate IsStr(enc: u8) { enc < ZIP_STR_MASK }

  // ---------------------------------------------------------------- integers

  function IntSize(enc: u8): nat {
    if enc == ZIP_INT_8B then 1
    else if enc == ZIP_INT_16B then 2
    else if enc == ZIP_INT_24B then 3
    else if enc == ZIP_INT_32B then 4
    else if enc == ZIP_INT_64B then 8
    else 0
  }

  predicate IsIntEncoding(enc: u8) {
    || enc in {ZIP_INT_8B, ZIP_INT_16B, ZIP_INT_24B, ZIP_INT_32B, ZIP_INT_64B}
    || ZIP_INT_IMM_MIN <= enc <= ZIP_INT_IMM_MAX
  }

  /** The narrowest encoding of zipTryEncoding. */
  function IntEncoding(v: int): u8 {
    if 0 <= v <= 12 then ZIP_INT_IMM_MIN + v
    else if -0x80 <= v <= 0x7f then ZIP_INT_8B
    else if -0x8000 <= v <= 0x7fff then ZIP_INT_16B
    else if -0x80_0000 <= v <= 0x7f_ffff then ZIP_INT_24B
    else if -0x8000_0000 <= v <= 0x7fff_ffff then ZIP_INT_32B
    else ZIP_INT_64B
  }

  function SaveInteger(v: int, enc: u8): bytes {
    if enc == ZIP_INT_8B then [v % 256]
    else if enc == ZIP_INT_16B then Le2(v % U16)
    else if enc == ZIP_INT_24B then Le4(v * 256 % U32)[1..]
    else if enc == ZIP_INT_32B then Le4(v % U32)
    else if enc == ZIP_INT_64B then Le8(v % U64)
    else []
  }

  function LoadInteger(p: bytes, enc: u8): int
    requires |p| == IntSize(enc)
  {
    if enc == ZIP_INT_8B then Signed2(p[0], 256)
    else if enc == ZIP_INT_16B then Signed2(Get2(p, 0), U16)
    else if enc == ZIP_INT_32B then Signed2(Get4(p, 0), U32)
    else if enc == ZIP_INT_24B then Signed2(Get4([0] + p, 0), U32) / 256
    else if enc == ZIP_INT_64B then Signed2(Get8(p, 0), U64)
    else enc % 16 - 1
  }

  lemma RoundTrip16(v: int)
    requires -0x8000 <= v <= 0x7fff
    ensures LoadInteger(Le2(v % U16), ZIP_INT_16B) == v
  {
    Get2OfLe2(Le2(v % U16), 0, v % U16);
  }

  lemma RoundTrip24(v: int)
    requires -0x80_0000 <= v <= 0x7f_ffff
    ensures LoadInteger(Le4(v * 256 % U32)[1..], ZIP_INT_24B) == v
  {
    var w := v * 256 % U32;
    assert w == if v < 0 then v * 256 + U32 else v * 256;
    assert Le4(w)[0] == 0;
    assert [0] + Le4(w)[1..] == Le4(w);
    Get4OfLe4(Le4(w), 0, w);
  }

  lemma RoundTrip32(v: int)
    requires -0x8000_0000 <= v <= 0x7fff_ffff
    ensures LoadInteger(Le4(v % U32), ZIP_INT_32B) == v
  {
    Get4OfLe4(Le4(v % U32), 0, v % U32);
  }

  lemma RoundTrip64(v: int)
    requires IsI64(v)
    ensures LoadInteger(Le8(v % U64), ZIP_INT_64B) == v
  {
    hide Le8, Get8;
    Get8OfLe8(v % U64);
  }

  /** Every 64-bit value survives its narrowest encoding, sign included. */
  lemma IntegerRoundTrip(v: int)
    requires IsI64(v)
    ensures IsIntEncoding(IntEncoding(v))
    ensures |SaveInteger(v, IntEncoding(v))| == IntSize(IntEncoding(v))
    ensures LoadInteger(SaveInteger(v, IntEncoding(v)), IntEncoding(v)) == v
  {
    hide Le2, Le4, Le8, Get2, Get4, Get8;
    var enc := IntEncoding(v);
    if enc == ZIP_INT_16B {
      RoundTrip16(v);
    } else if enc == ZIP_INT_24B {
      RoundTrip24(v);
    } else if enc == ZIP_INT_32B {
      RoundTrip32(v);
    } else if enc == ZIP_INT_64B {
      RoundTrip64(v);
    }
  }

  /** What any encoding holds, the chosen one holds in no more bytes. */
  lemma NarrowestEncoding(v: int, enc: u8, p: bytes)
    requires IsIntEncoding(enc) && |p| == IntSize(enc) && LoadInteger(p, enc) == v
    ensures IsI64(v) && IntSize(IntEncoding(v)) <= IntSize(enc)
  {
    hide Get2, Get4, Get8;
    if enc == ZIP_INT_24B {
      var w := Signed2(Get4([0] + p, 0), U32);
      assert -0x8000_0000 <= w <= 0x7fff_ffff && v == w / 256;
    }
  }

  /** A 64-bit integer's text is short, so the length test loses no integer. */
  lemma IntTextIsShort(s: bytes)
    requires IsIntText(s)
    ensures 0 < |s| < 32
  {
    var v :| IsI64(v) && Text(v) == s;
    Sdigits10Exact(v);
    var u := if v < 0 then -v else v;
    assert u / 1000000000000 < 10000000;
    assert Digits10(u / 1000000000000) <= 7;
  }

  method ZipTryEncoding(entry: bytes) returns (ok: bool, v: int, enc: u8)
    ensures ok <==> IsIntText(entry)
    ensures ok ==> IsI64(v) && Text(v) == entry && enc == IntEncoding(v)
    ensures ok ==> IsIntEncoding(enc) && forall e, p ::
                     IsIntEncoding(e) && |p| == IntSize(e) && LoadInteger(p, e) == v ==> IntSize(enc) <= IntSize(e)
  {
    if IsIntText(entry) { IntTextIsShort(entry); }
    if |entry| >= 32 || |entry| == 0 { return false, 0, 0; }
    ok, v := String2Ll(entry);
    enc := if ok then IntEncoding(v) else 0;
    if ok {
      IntegerRoundTrip(v);
      hide IntSize, IntEncoding, LoadInteger, IsIntEncoding;
      forall e, p | IsIntEncoding(e) && |p| == IntSize(e) && LoadInteger(p, e) == v
        ensures IntSize(enc) <= IntSize(e)
      {
        NarrowestEncoding(v, e, p);
      }
    }
  }

  // ------------------------------------------------- encoding/length header

  /** zipEncodeLength: the header for a string of rawlen bytes or an integer. */
  function EncodeLength(enc: u8, rawlen: nat): (r: bytes)
    requires rawlen < U32
    ensures 1 <= |r| <= 5
  {
    if IsStr(enc) then
      if rawlen <= 0x3f then [rawlen]
      else if rawlen <= 0x3fff then [ZIP_STR_14B + rawlen / 256, rawlen % 256]
      else [ZIP_STR_32B, rawlen / 16777216, rawlen / 65536 % 256, rawlen / 256 % 256, rawlen % 256]
    else [enc]
  }

  function EncodeLengthSize(enc: u8, rawlen: nat): (n: nat)
    requires rawlen < U32
    ensures n == |EncodeLength(enc, rawlen)|
  {
    if IsStr(enc) then
      if rawlen <= 0x3f then 1 else if rawlen <= 0x3fff then 2 else 5
    else 1
  }

  function EntryEncoding(z: bytes, q: nat): u8
    requires q < |z|
  {
    if z[q] < ZIP_STR_MASK then z[q] - z[q] % 64 else z[q]
  }

  /** ZIP_DECODE_LENGTH, first part: the bytes taken by the header. */
  function LenSize(z: bytes, q: nat): nat
    requires q < |z|
  {
    var enc := EntryEncoding(z, q);
    if enc == 0 then 1 else if enc == ZIP_STR_14B then 2 else if enc == ZIP_STR_32B then 5 else 1
  }

  /** ZIP_DECODE_LENGTH, second part: the bytes taken by the payload. */
  function Len(z: bytes, q: nat): nat
    requires q < |z| && q + LenSize(z, q) <= |z|
  {
    var enc := EntryEncoding(z, q);
    if enc == 0 then z[q] % 64
    else if enc == ZIP_STR_14B then z[q] % 64 * 256 + z[q + 1]
    else if enc == ZIP_STR_32B then
      z[q + 1] as int * 16777216 + z[q + 2] as int * 65536 + z[q + 3] as int * 256 + z[q + 4]
    else IntSize(enc)
  }

  /** A complete entry without its prevlen field. */
  predicate BodyOk(b: bytes) {
    && |b| >= 1 && |b| >= LenSize(b, 0) && |b| == LenSize(b, 0) + Len(b, 0)
    && (!IsStr(b[0]) ==> IsIntEncoding(b[0]))
  }

  datatype Value = Str(s: bytes) | Num(v: int)

  function Payload(b: bytes): Value
    requires BodyOk(b)
  {
    if IsStr(b[0]) then Str(b[LenSize(b, 0)..]) else Num(LoadInteger(b[1..], b[0]))
  }

  /** The byte string that an entry stands for. */
  function TextOf(v: Value): bytes {
    match v case Str(s) => s case Num(n) => Text(n)
  }

  function BodyText(b: bytes): bytes {
    if BodyOk(b) then TextOf(Payload(b)) else []
  }

  /** What __ziplistInsert writes after the prevlen field for the string s. */
  ghost function BodyFor(s: bytes): bytes
    requires |s| < U32
  {
    if IsIntText(s) then
      var v :| IsI64(v) && Text(v) == s;
      EncodeLength(IntEncoding(v), |s|) + SaveInteger(v, IntEncoding(v))
    else
      EncodeLength(0, |s|) + s
  }

  lemma BodyForInt(s: bytes, v: int)
    requires IsI64(v) && Text(v) == s && |s| < U32
    ensures BodyFor(s) == EncodeLength(IntEncoding(v), |s|) + SaveInteger(v, IntEncoding(v))
    ensures |BodyFor(s)| == 1 + IntSize(IntEncoding(v))
  {
    var w :| IsI64(w) && Text(w) == s
      && BodyFor(s) == EncodeLength(IntEncoding(w), |s|) + SaveInteger(w, IntEncoding(w));
    TextInjective(v, w);
    IntegerRoundTrip(v);
  }

  lemma StringHeader(n: nat)
    requires n < U32
    ensures var h := EncodeLength(0, n);
            IsStr(h[0]) && LenSize(h, 0) == |h| && Len(h, 0) == n
  {
    if 0x3f < n <= 0x3fff {
      assert (ZIP_STR_14B + n / 256) % 64 == n / 256;
      assert EntryEncoding(EncodeLength(0, n), 0) == ZIP_STR_14B;
    } else if n > 0x3fff {
      BigEndian(n);
    }
  }

  lemma BigEndian(n: nat)
    requires n < U32
    ensures n / 16777216 * 16777216 + n / 65536 % 256 * 65536 + n / 256 % 256 * 256 + n % 256 == n
  {}

  /** A header is read back alike wherever it is stored. */
  lemma SameHeader(z: bytes, q: nat, b: bytes)
    requires |b| >= 1 && LenSize(b, 0) <= |b| && q + LenSize(b, 0) <= |z|
    requires z[q..q + LenSize(b, 0)] == b[..LenSize(b, 0)]
    ensures EntryEncoding(z, q) == EntryEncoding(b, 0)
    ensures LenSize(z, q) == LenSize(b, 0) && Len(z, q) == Len(b, 0)
  {
    var h := b[..LenSize(b, 0)];
    assert forall i :: 0 <= i < |h| ==> z[q + i] == z[q..q + |h|][i] == h[i] == b[i];
    assert z[q] == b[0];
  }

  /** Encoding then decoding an entry gives the inserted string, byte for byte. */
  lemma BodyRoundTrip(s: bytes)
    requires |s| < U32
    ensures BodyOk(BodyFor(s)) && BodyText(BodyFor(s)) == s
  {
    var b := BodyFor(s);
    if IsIntText(s) {
      var v :| IsI64(v) && Text(v) == s;
      BodyForInt(s, v);
      IntegerRoundTrip(v);
      assert b[1..] == SaveInteger(v, IntEncoding(v));
    } else {
      StringHeader(|s|);
      SameHeader(b, 0, EncodeLength(0, |s|));
      assert b[LenSize(b, 0)..] == s;
    }
  }

  /** The text of an integer has more bytes than its narrowest encoding. */
  lemma IntTextIsLonger(v: int)
    requires IsI64(v)
    ensures IntSize(IntEncoding(v)) <= |Text(v)|
  {
    var u := if v < 0 then -v else v;
    Digits10Exact(u);
    hide Dec;
    assert |Text(v)| == (if v < 0 then 1 else 0) + Digits10(u);
  }

  /** The header of a string takes no more bytes than any that tells its length. */
  lemma ShortestHeader(h: bytes)
    requires h != [] && IsStr(h[0]) && LenSize(h, 0) <= |h| && Len(h, 0) < U32
    ensures |EncodeLength(0, Len(h, 0))| <= LenSize(h, 0)
  {}

  lemma NumBody(b: bytes)
    requires BodyOk(b) && !IsStr(b[0])
    ensures |b| == 1 + IntSize(b[0]) && IsIntEncoding(b[0])
  {}

  /** What is stored for a string is as short as anything that stands for it. */
  lemma BodyForShortest(s: bytes, b: bytes)
    requires |s| < U32 && BodyOk(b) && BodyText(b) == s
    ensures |BodyFor(s)| <= |b|
  {
    hide Text, IntSize, IntEncoding, LoadInteger, IsIntEncoding, EncodeLength;
    if IsStr(b[0]) {
      ShortestHeader(b);
      if IsIntText(s) {
        var v :| IsI64(v) && Text(v) == s;
        BodyForInt(s, v);
        IntTextIsLonger(v);
      }
    } else {
      NumBody(b);
      var v := LoadInteger(b[1..], b[0]);
      NarrowestEncoding(v, b[0], b[1..]);
      assert IsI64(v) && Text(v) == s;
      BodyForInt(s, v);
    }
  }

  // ----------------------------------------------------------- prevlen field

  function PrevSizeFor(n: nat): nat { if n < ZIP_BIGLEN then 1 else 5 }

  /** The prevlen field, in its short or its long form. */
  function PrevField(prev: nat, big: bool): (r: bytes)
    ensures |r| == if big then 5 else 1
  {
    if big then [ZIP_BIGLEN] + Le4(prev) else [prev % 256]
  }

  function PrevSize(z: bytes, p: nat): nat
    requires p < |z|
  {
    if z[p] < ZIP_BIGLEN then 1 else 5
  }

  function PrevLen(z: bytes, p: nat): nat
    requires p < |z| && p + PrevSize(z, p) <= |z|
  {
    if z[p] < ZIP_BIGLEN then z[p] else Get4(z, p + 1)
  }

  lemma PrevFieldRead(z: bytes, p: nat, prev: nat, big: bool)
    requires prev < U32 && (!big ==> prev < ZIP_BIGLEN)
    requires var f := PrevField(prev, big); p + |f| <= |z| && z[p..p + |f|] == f
    ensures z[p] != ZIP_END && PrevSize(z, p) == (if big then 5 else 1) && PrevLen(z, p) == prev
  {
    var f := PrevField(prev, big);
    assert z[p] == f[0];
    if big {
      assert z[p + 1..p + 5] == f[1..5] == Le4(prev);
      Get4OfLe4(z, p + 1, prev);
    }
  }

  /** A length that can be read from a field of one byte is given one. */
  lemma PrevFieldShortest(z: bytes, p: nat)
    requires p < |z| && p + PrevSize(z, p) <= |z|
    ensures PrevSizeFor(PrevLen(z, p)) <= PrevSize(z, p)
  {}
}
