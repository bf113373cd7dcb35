// Read access to a ziplist (ziplist.c): indexing from either end, stepping,
// decoding a value, counting.
module ZiplistRead {
  import opened Bytes
  import opened ZiplistEntry
  import opened ZiplistNodes
  import opened ZiplistBuffer
  import opened ZiplistCascade
  import opened ZiplistInsert
  import opened ZiplistDelete
  import opened ZiplistMerge

  /** ziplistIndex: negative indices count from the tail. */
  method Index(z: bytes, index: int, ghost es: seq<Node>) returns (found: bool, p: nat)
    requires Wf(z, es)
    ensures found <==> -|es| <= index < |es|
    ensures found ==> p == Offset(es, if index >= 0 then index else |es| + index)
  {
    if index < 0 {
      found, p := IndexBack(z, -index - 1, es);
    } else {
      found, p := IndexForward(z, index, es);
    }
  }

  method IndexForward(z: bytes, index: nat, ghost es: seq<Node>) returns (found: bool, p: nat)
    requires Wf(z, es)
    ensures found <==> index < |es|
    ensures found ==> p == Offset(es, index)
  {
    hide Ser, Raw, Region, BodyOk, ZlBytes, ZlTail, ZlCount, TailDist, Chain;
    p := HEADER;
    var idx := index;
    ghost var k := 0;
    NoOffset(es);
    Locate(z, es, 0);
    RegionRead(z, p, es[0..]);
    while z[p] != ZIP_END && idx != 0
      invariant 0 <= idx && k + idx == index && k <= |es| && p == Offset(es, k) < |z|
      invariant z[p] == ZIP_END <==> k == |es|
      decreases idx
    {
      Locate(z, es, k);
      RegionRead(z, p, es[k..]);
      NextOffset(es, k);
      p := p + RawEntryLength(z, p);
      idx, k := idx - 1, k + 1;
      Locate(z, es, k);
      RegionRead(z, p, es[k..]);
    }
    found := !(z[p] == ZIP_END || idx > 0);
  }

  method IndexBack(z: bytes, index: nat, ghost es: seq<Node>) returns (found: bool, p: nat)
    requires Wf(z, es)
    ensures found <==> index < |es|
    ensures found ==> p == Offset(es, |es| - 1 - index)
  {
    hide Ser, Raw, Region, BodyOk, ZlBytes, ZlTail, ZlCount, TailDist, Chain;
    p := ZlTail(z);
    var idx := index;
    ghost var k := |es| - 1;
    TailFacts(z, es);
    if es == [] { NoOffset(es); Locate(z, es, 0); RegionRead(z, p, es[0..]); }
    else { Locate(z, es, k); RegionRead(z, p, es[k..]); }
    if z[p] != ZIP_END {
      var prevlen := PrevLen(z, p);
      while prevlen > 0 && idx != 0
        invariant 0 <= k < |es| && |es| - 1 - k + idx == index && p == Offset(es, k) < |z|
        invariant prevlen == es[k].prev && z[p] != ZIP_END
        decreases idx
      {
        PrevOffset(es, k);
        p := p - prevlen;
        idx, k := idx - 1, k - 1;
        Locate(z, es, k);
        RegionRead(z, p, es[k..]);
        prevlen := PrevLen(z, p);
      }
      PrevOffset(es, k);
    }
    found := !(z[p] == ZIP_END || idx > 0);
  }

  /** The stored prevlen leads to the start of the previous entry. */
  lemma PrevOffset(es: seq<Node>, k: nat)
    requires Chain(0, es) && k < |es|
    ensures es[k].prev == 0 <==> k == 0
    ensures k > 0 ==> es[k].prev <= Offset(es, k) && Offset(es, k) - es[k].prev == Offset(es, k - 1)
  {
    hide Raw;
    ChainSplit(0, es, k);
    if k > 0 { NextOffset(es, k - 1); EntryNotEmpty(es, k - 1); }
  }

  lemma EntryNotEmpty(es: seq<Node>, k: nat)
    requires k < |es|
    ensures RawLen(es[k]) > 0
  {}

  /** ziplistNext: absent at the end mark and after the last entry. */
  method Next(z: bytes, p: nat, ghost es: seq<Node>, ghost k: nat) returns (found: bool, q: nat)
    requires Wf(z, es) && k <= |es| && p == Offset(es, k)
    ensures found <==> k + 1 < |es|
    ensures found ==> q == Offset(es, k + 1)
  {
    hide Ser, Raw, Region, BodyOk, ZlBytes, ZlTail, ZlCount, TailDist, Chain;
    Locate(z, es, k);
    RegionRead(z, p, es[k..]);
    if z[p] == ZIP_END { return false, p; }
    NextOffset(es, k);
    q := p + RawEntryLength(z, p);
    Locate(z, es, k + 1);
    RegionRead(z, q, es[k + 1..]);
    found := z[q] != ZIP_END;
  }

  /** ziplistPrev: from the end mark to the tail, absent before the head. */
  method Prev(z: bytes, p: nat, ghost es: seq<Node>, ghost k: nat) returns (found: bool, q: nat)
    requires Wf(z, es) && k <= |es| && p == Offset(es, k)
    ensures found <==> k > 0
    ensures found ==> q == Offset(es, k - 1)
  {
    hide Ser, Raw, Region, BodyOk, ZlBytes, ZlTail, ZlCount, TailDist, Chain;
    Locate(z, es, k);
    RegionRead(z, p, es[k..]);
    TailFacts(z, es);
    NoOffset(es);
    if z[p] == ZIP_END {
      q := ZlTail(z);
      if es != [] { Locate(z, es, |es| - 1); RegionRead(z, q, es[|es| - 1..]); }
      found := z[q] != ZIP_END;
    } else if p == HEADER {
      OffsetZero(es, k);
      found, q := false, p;
    } else {
      PrevOffset(es, k);
      found, q := true, p - PrevLen(z, p);
    }
  }

  lemma OffsetZero(es: seq<Node>, k: nat)
    requires k <= |es| && Offset(es, k) == HEADER
    ensures k == 0
  {
    hide Raw;
    SerLong(es[..k]);
  }

  /** ziplistGet: the value stored at an entry. */
  method Get(z: bytes, p: nat, ghost es: seq<Node>, ghost k: nat) returns (found: bool, v: Value)
    requires Wf(z, es) && k <= |es| && p == Offset(es, k)
    ensures found <==> k < |es|
    ensures found ==> TextOf(v) == Values(es)[k]
  {
    hide Ser, Raw, Region, ZlBytes, ZlTail, ZlCount, TailDist, Chain;
    Locate(z, es, k);
    RegionRead(z, p, es[k..]);
    if z[p] == ZIP_END { return false, Num(0); }
    RegionHead(z, p, es[k..]);
    BodyAt(z, p, es[k]);
    PayloadAt(z, p, es[k]);
    ValueAt(es, k);
    hide LenSize, Len, EntryEncoding, LoadInteger, IntSize, BodyText, TextOf, IsStr, Values;
    var q := p + PrevSize(z, p);
    return true, Decode(z, q);
  }

  lemma ValueAt(es: seq<Node>, k: nat)
    requires k < |es|
    ensures Values(es)[k] == BodyText(es[k].body)
  {}

  /** The string or the integer of the entry whose header is at q. */
  function Decode(z: bytes, q: nat): Value
    requires q < |z| && q + LenSize(z, q) <= |z| && q + LenSize(z, q) + Len(z, q) <= |z|
  {
    var enc := EntryEncoding(z, q);
    var p := q + LenSize(z, q);
    if IsStr(enc) then Str(z[p..p + Len(z, q)]) else Num(LoadInteger(z[p..p + IntSize(enc)], enc))
  }

  lemma PayloadAt(z: bytes, p: nat, e: Node)
    requires Readable(e) && p + RawLen(e) <= |z| && z[p..p + RawLen(e)] == Raw(e)
    ensures var q := p + (if e.big then 5 else 1);
            q < |z| && q + LenSize(z, q) <= |z| && q + LenSize(z, q) + Len(z, q) <= |z|
            && BodyText(e.body) == TextOf(Decode(z, q))
  {
    hide Raw, LoadInteger;
    BodyAt(z, p, e);
  }

  /** The payload bytes and the encoding that ziplistGet looks at. */
  lemma BodyAt(z: bytes, p: nat, e: Node)
    requires Readable(e) && p + RawLen(e) <= |z| && z[p..p + RawLen(e)] == Raw(e)
    ensures var q := p + (if e.big then 5 else 1);
            && q + |e.body| <= |z| && z[q..q + |e.body|] == e.body
            && LenSize(z, q) == LenSize(e.body, 0) && Len(z, q) == Len(e.body, 0)
            && EntryEncoding(z, q) == EntryEncoding(e.body, 0)
            && z[q + LenSize(e.body, 0)..q + |e.body|] == e.body[LenSize(e.body, 0)..]
  {
    var f := PrevField(e.prev, e.big);
    var q := p + |f|;
    var h := LenSize(e.body, 0);
    RawIs(e);
    SliceOfSum(z, p, f, e.body);
    hide PrevField, Raw, Len, IsIntEncoding;
    assert z[q..q + h] == z[q..q + |e.body|][..h];
    assert z[q + h..q + |e.body|] == z[q..q + |e.body|][h..];
    SameHeader(z, q, e.body);
  }

  /** ziplistLen: exact even when the 16-bit counter has saturated. */
  method Length(z: bytes, ghost es: seq<Node>) returns (r: bytes, len: nat)
    requires Wf(z, es)
    ensures len == |es| && Wf(r, es)
  {
    hide Ser, Raw, Region, BodyOk, ZlBytes, ZlTail, ZlCount, TailDist, Chain;
    r := z;
    if ZlCount(z) < U16 - 1 {
      len := ZlCount(z);
    } else {
      var p := HEADER;
      len := 0;
      NoOffset(es);
      Locate(z, es, 0);
      RegionRead(z, p, es[0..]);
      while z[p] != ZIP_END
        invariant len <= |es| && p == Offset(es, len) < |z|
        invariant z[p] == ZIP_END <==> len == |es|
        decreases |es| - len
      {
        Locate(z, es, len);
        RegionRead(z, p, es[len..]);
        NextOffset(es, len);
        p := p + RawEntryLength(z, p);
        len := len + 1;
        Locate(z, es, len);
        RegionRead(z, p, es[len..]);
      }
      if len < U16 - 1 {
        r := SetCount(z, len);
        SectionSame(z, r, HEADER, es);
      }
    }
  }
}
