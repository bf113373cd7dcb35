// The packed array of an intset (intset.c): signed little-endian words of 2, 4
// or 8 bytes.
module IntsetWords {
  import opened Bytes

  predicate IsEncoding(enc: nat) { enc == 2 || enc == 4 || enc == 8 }

  /** Whether a value has a word of this width. */
  predicate Fits(v: int, enc: nat) {
    if enc == 2 then -0x8000 <= v <= 0x7fff
    else if enc == 4 then -0x8000_0000 <= v <= 0x7fff_ffff
    else IsI64(v)
  }

  /** _intsetValueEncoding. */
  function ValueEncoding(v: int): (enc: nat)
    requires IsI64(v)
    ensures IsEncoding(enc) && Fits(v, enc)
    ensures forall e :: IsEncoding(e) && Fits(v, e) ==> enc <= e
  {
    if v < -0x8000_0000 || v > 0x7fff_ffff then 8
    else if v < -0x8000 || v > 0x7fff then 4
    else 2
  }

  /** The byte offset of element pos. */
  function Off(pos: nat, enc: nat): nat {
    if enc == 2 then 2 * pos else if enc == 4 then 4 * pos else 8 * pos
  }

  lemma OffFacts(i: nat, j: nat, enc: nat)
    requires IsEncoding(enc)
    ensures Off(0, enc) == 0 && Off(i + 1, enc) == Off(i, enc) + enc
    ensures i < j ==> Off(i, enc) + enc <= Off(j, enc)
    ensures i <= j ==> Off(i, enc) <= Off(j, enc)
    ensures i <= j ==> Off(j, enc) - Off(i, enc) == Off(j - i, enc)
  {}

  lemma OffWider(i: nat, enc: nat, wide: nat)
    requires IsEncoding(enc) && IsEncoding(wide) && enc <= wide
    ensures Off(i, enc) <= Off(i, wide)
  {}

  function Word(v: int, enc: nat): (w: bytes)
    requires IsEncoding(enc) && Fits(v, enc)
    ensures |w| == enc
  {
    if enc == 2 then Le2(v % U16) else if enc == 4 then Le4(v % U32) else Le8(v % U64)
  }

  function Load(w: bytes, enc: nat): (v: int)
    requires IsEncoding(enc) && |w| == enc
    ensures Fits(v, enc)
  {
    if enc == 2 then Signed2(Get2(w, 0), U16)
    else if enc == 4 then Signed2(Get4(w, 0), U32)
    else Signed2(Get8(w, 0), U64)
  }

  lemma LoadWord2(v: int)
    requires Fits(v, 2)
    ensures Load(Word(v, 2), 2) == v
  {
    Get2OfLe2(Le2(v % U16), 0, v % U16);
  }

  lemma LoadWord4(v: int)
    requires Fits(v, 4)
    ensures Load(Word(v, 4), 4) == v
  {
    Get4OfLe4(Le4(v % U32), 0, v % U32);
  }

  lemma LoadWord8(v: int)
    requires Fits(v, 8)
    ensures Load(Word(v, 8), 8) == v
  {
    hide Le8, Get8;
    Get8OfLe8(v % U64);
  }

  lemma LoadWord(v: int, enc: nat)
    requires IsEncoding(enc) && Fits(v, enc)
    ensures Load(Word(v, enc), enc) == v
  {
    hide Load, Word, Fits;
    if enc == 2 { LoadWord2(v); } else if enc == 4 { LoadWord4(v); } else { LoadWord8(v); }
  }

  /** The word of element pos. */
  function WordAt(s: bytes, pos: nat, enc: nat): (w: bytes)
    requires IsEncoding(enc) && Off(pos, enc) + enc <= |s|
    ensures |w| == enc
  {
    s[Off(pos, enc)..Off(pos, enc) + enc]
  }

  function ValueAt(s: bytes, pos: nat, enc: nat): (v: int)
    requires IsEncoding(enc) && Off(pos, enc) + enc <= |s|
    ensures Fits(v, enc)
  {
    Load(WordAt(s, pos, enc), enc)
  }

  function Values(s: bytes, n: nat, enc: nat): (vs: seq<int>)
    requires IsEncoding(enc) && Off(n, enc) <= |s|
    ensures |vs| == n
  {
    seq(n, i requires 0 <= i < n => OffFacts(i, n, enc); ValueAt(s, i, enc))
  }

  lemma ValuesAt(s: bytes, n: nat, enc: nat, i: nat)
    requires IsEncoding(enc) && Off(n, enc) <= |s| && i < n
    ensures Off(i, enc) + enc <= |s| && Values(s, n, enc)[i] == ValueAt(s, i, enc)
  {
    OffFacts(i, n, enc);
  }

  /** _intsetSet. */
  function Put(s: bytes, pos: nat, enc: nat, v: int): (r: bytes)
    requires IsEncoding(enc) && Fits(v, enc) && Off(pos, enc) + enc <= |s|
    ensures |r| == |s|
  {
    Splice(s, Off(pos, enc), Word(v, enc))
  }

  lemma PutSame(s: bytes, pos: nat, enc: nat, v: int)
    requires IsEncoding(enc) && Fits(v, enc) && Off(pos, enc) + enc <= |s|
    ensures ValueAt(Put(s, pos, enc, v), pos, enc) == v
    ensures Put(s, pos, enc, v)[..Off(pos, enc)] == s[..Off(pos, enc)]
  {
    hide Load, Word, Off;
    LoadWord(v, enc);
  }

  lemma PutOther(s: bytes, pos: nat, enc: nat, v: int, i: nat)
    requires IsEncoding(enc) && Fits(v, enc) && Off(pos, enc) + enc <= |s| && Off(i, enc) + enc <= |s| && i != pos
    ensures ValueAt(Put(s, pos, enc, v), i, enc) == ValueAt(s, i, enc)
  {
    hide Load, Word, Off;
    OffFacts(i, pos, enc);
    OffFacts(pos, i, enc);
    SpliceOther(s, Off(pos, enc), Word(v, enc), Off(i, enc), enc);
  }

  lemma SpliceOther(s: bytes, p: nat, w: bytes, i: nat, n: nat)
    requires p + |w| <= |s| && i + n <= |s| && (i + n <= p || p + |w| <= i)
    ensures Splice(s, p, w)[i..i + n] == s[i..i + n]
  {}

  /** Reading element i needs no more than the bytes before element i + 1. */
  lemma ValueFromPrefix(s: bytes, t: bytes, k: nat, i: nat, enc: nat)
    requires IsEncoding(enc) && i < k && Off(k, enc) <= |s| && Off(k, enc) <= |t| && s[..Off(k, enc)] == t[..Off(k, enc)]
    ensures Off(i, enc) + enc <= |s| && Off(i, enc) + enc <= |t| && ValueAt(s, i, enc) == ValueAt(t, i, enc)
  {
    hide Load, Off;
    OffFacts(i, k, enc);
    PrefixSlice(s, t, Off(k, enc), Off(i, enc), Off(i, enc) + enc);
  }

  lemma PrefixSlice(s: bytes, t: bytes, n: nat, i: nat, j: nat)
    requires i <= j <= n <= |s| && n <= |t| && s[..n] == t[..n]
    ensures s[i..j] == t[i..j]
  {
    assert s[i..j] == s[..n][i..j] && t[i..j] == t[..n][i..j];
  }

  /** intsetMoveTail, for n elements: from and on go to to and on. */
  function Moved(s: bytes, from: nat, to: nat, n: nat, enc: nat): (r: bytes)
    requires IsEncoding(enc) && from <= n && Off(n, enc) <= |s| && Off(to + (n - from), enc) <= |s|
    ensures |r| == |s|
  {
    OffFacts(from, n, enc);
    OffFacts(to, to + (n - from), enc);
    Splice(s, Off(to, enc), s[Off(from, enc)..Off(n, enc)])
  }

  lemma MovedTail(s: bytes, from: nat, to: nat, n: nat, enc: nat, i: nat)
    requires IsEncoding(enc) && from <= i < n && Off(n, enc) <= |s| && Off(to + (n - from), enc) <= |s|
    ensures Off(to + (i - from), enc) + enc <= |s| && Off(i, enc) + enc <= |s|
    ensures ValueAt(Moved(s, from, to, n, enc), to + (i - from), enc) == ValueAt(s, i, enc)
  {
    hide Load, Off;
    OffFacts(i, n, enc);
    OffFacts(from, i, enc);
    OffFacts(from, n, enc);
    OffFacts(to, to + (i - from), enc);
    OffFacts(to, to + (n - from), enc);
    OffFacts(to + (i - from), to + (n - from), enc);
    SpliceInside(s, Off(to, enc), s[Off(from, enc)..Off(n, enc)], Off(i, enc) - Off(from, enc), enc);
    SliceOfSlice(s, Off(from, enc), Off(n, enc), Off(i, enc), Off(i, enc) + enc);
  }

  lemma SliceOfSlice(s: bytes, a: nat, b: nat, i: nat, j: nat)
    requires a <= i <= j <= b <= |s|
    ensures s[a..b][i - a..j - a] == s[i..j]
  {
    var x, y := s[a..b][i - a..j - a], s[i..j];
    assert forall k :: 0 <= k < |y| ==> x[k] == y[k];
  }

  lemma SpliceInside(s: bytes, p: nat, w: bytes, i: nat, n: nat)
    requires p + |w| <= |s| && i + n <= |w|
    ensures Splice(s, p, w)[p + i..p + i + n] == w[i..i + n]
  {}

  lemma MovedRest(s: bytes, from: nat, to: nat, n: nat, enc: nat, i: nat, size: nat)
    requires IsEncoding(enc) && from <= n && to + (n - from) <= i < size && |s| == Off(size, enc)
    requires Off(n, enc) <= |s| && Off(to + (n - from), enc) <= |s|
    ensures Off(i, enc) + enc <= |s| && ValueAt(Moved(s, from, to, n, enc), i, enc) == ValueAt(s, i, enc)
  {
    hide Load, Off;
    OffFacts(i, size, enc);
    OffFacts(from, n, enc);
    OffFacts(to, to + (n - from), enc);
    OffFacts(to + (n - from), i, enc);
    SpliceOther(s, Off(to, enc), s[Off(from, enc)..Off(n, enc)], Off(i, enc), enc);
  }

  lemma MovedHead(s: bytes, from: nat, to: nat, n: nat, enc: nat, i: nat)
    requires IsEncoding(enc) && from <= n && i < to && Off(n, enc) <= |s| && Off(to + (n - from), enc) <= |s|
    ensures Off(i, enc) + enc <= |s| && ValueAt(Moved(s, from, to, n, enc), i, enc) == ValueAt(s, i, enc)
  {
    hide Load, Off;
    OffFacts(i, to, enc);
    OffFacts(from, n, enc);
    OffFacts(to, to + (n - from), enc);
    SpliceOther(s, Off(to, enc), s[Off(from, enc)..Off(n, enc)], Off(i, enc), enc);
  }
}
