// __ziplistInsert (ziplist.c): open a gap, repair the following links,
// write the new entry, count it.
module ZiplistInsert {
  import opened Bytes
  import opened Sequences
  import opened ZiplistEntry
  import opened ZiplistNodes
  import opened ZiplistBuffer
  import opened ZiplistCascade

  /** Byte offset of entry k. */
  ghost function Offset(es: seq<Node>, k: nat): nat
    requires k <= |es|
  {
    HEADER + |Ser(es[..k])|
  }

  /** A well-formed ziplist buffer holding exactly these entries. */
  ghost predicate Wf(z: bytes, es: seq<Node>) {
    && Section(z, HEADER, es) && Chain(0, es)
    && (es == [] ==> ZlTail(z) == HEADER)
    && (ZlCount(z) < U16 - 1 ==> ZlCount(z) == |es|)
  }

  lemma Locate(z: bytes, es: seq<Node>, k: nat)
    requires Region(z, HEADER, es) && k <= |es|
    ensures Offset(es, k) < |z| && Region(z, Offset(es, k), es[k..])
    ensures z[HEADER..Offset(es, k)] == Ser(es[..k])
  {
    SerSplit(es, k);
    hide Ser;
    Assoc(Ser(es[..k]), Ser(es[k..]), [ZIP_END]);
    Prefixed(z, HEADER, Ser(es[..k]), Ser(es[k..]) + [ZIP_END]);
  }

  /** The entry after the insertion point once it stores the new length. */
  function NextNode(reqlen: nat, e: Node): Node {
    Node(reqlen, reqlen >= ZIP_BIGLEN || (e.big && reqlen < 4), e.body)
  }

  /** Resize, memmove and prevlen store, on bytes alone. */
  method GapBytes(z: bytes, p: nat, prevsize: nat, reqlen: nat, nextdiff: int, field: bytes) returns (r: bytes)
    requires |z| > HEADER && HEADER <= p && p + prevsize < |z| && z[|z| - 1] == ZIP_END
    requires ZlBytes(z) == |z| && |z| + reqlen + 4 < U32
    requires |field| == prevsize + nextdiff && 1 <= prevsize && 1 <= |field|
    requires -4 <= nextdiff <= 4 && 2 <= reqlen && 0 <= reqlen + nextdiff
    ensures |r| == |z| + reqlen + nextdiff && ZlBytes(r) == |r|
    ensures ZlTail(r) == ZlTail(z) && ZlCount(r) == ZlCount(z)
    ensures forall i :: HEADER <= i < p ==> r[i] == z[i]
    ensures r[p + reqlen..p + reqlen + |field|] == field
    ensures r[p + reqlen + |field|..] == z[p + prevsize..]
  {
    hide ZlBytes, ZlTail, ZlCount;
    var curlen := ZlBytes(z);
    r := Resize(z, curlen + reqlen + nextdiff);
    ghost var y := r;
    r := Move(r, p + reqlen, p - nextdiff, curlen - p - 1 + nextdiff);
    r := Store(r, p + reqlen, field);
    MovedTail(z, y, r, p + prevsize, p + reqlen + |field|);
  }

  /** The prevlen field the next entry will get, and its change in size. */
  method NextField(z: bytes, p: nat, reqlen: nat, ghost e: Node, ghost t: seq<Node>)
    returns (nextdiff: int, field: bytes)
    requires Region(z, p, [e] + t) && AllReadable([e] + t) && p < |z|
    ensures nextdiff == RawLen(NextNode(reqlen, e)) - RawLen(e) && -4 <= nextdiff <= 4
    ensures nextdiff == -4 ==> reqlen >= 4
    ensures field == PrevField(reqlen, NextNode(reqlen, e).big)
  {
    hide Ser, Raw, PrevField, Region, BodyOk;
    RegionRead(z, p, [e] + t);
    assert ([e] + t)[0] == e;
    nextdiff := PrevSizeFor(reqlen) - PrevSize(z, p);
    var forcelarge := false;
    if nextdiff == -4 && reqlen < 4 {
      nextdiff := 0;
      forcelarge := true;
    }
    field := if forcelarge then PrevField(reqlen, true) else PrevField(reqlen, reqlen >= ZIP_BIGLEN);
  }

  lemma NextReadable(e: Node, t: seq<Node>, next: Node)
    requires AllReadable([e] + t) && Readable(next)
    ensures AllReadable([next] + t)
  {
    hide BodyOk;
    assert forall i :: 1 <= i < |[next] + t| ==> ([next] + t)[i] == ([e] + t)[i];
  }

  /** Make room for reqlen bytes before entry e and store reqlen in its prevlen. */
  method OpenGap(z: bytes, p: nat, reqlen: nat, ghost e: Node, ghost t: seq<Node>)
    returns (r: bytes, nextdiff: int)
    requires Section(z, p, [e] + t) && reqlen >= 2 && |z| + reqlen + 4 < U32
    ensures nextdiff == RawLen(NextNode(reqlen, e)) - RawLen(e)
    ensures Section(r, p + reqlen, [NextNode(reqlen, e)] + t) && |r| == |z| + reqlen + nextdiff
    ensures ZlCount(r) == ZlCount(z)
    ensures forall i :: HEADER <= i < p ==> r[i] == z[i]
  {
    hide Ser, Raw, PrevField, Region, ZlBytes, ZlTail, ZlCount, BodyOk, TailDist;
    RegionHead(z, p, [e] + t);
    RegionRead(z, p, [e] + t);
    assert ([e] + t)[0] == e;
    ghost var next := NextNode(reqlen, e);
    var field;
    nextdiff, field := NextField(z, p, reqlen, e, t);
    r := GapBytes(z, p, PrevSize(z, p), reqlen, nextdiff, field);
    RegionReplace(z, p, e, t, r, p + reqlen, next);
    NextReadable(e, t, next);
    TailDistCons(e, t);
    TailDistCons(next, t);
    TailInside(r, p + reqlen, [next] + t);
    ghost var w := r;
    r := ShiftTail(r, p + reqlen, reqlen, nextdiff, next, t);
    RegionSame(w, r, p + reqlen, [next] + t);
  }

  /** Shift the tail offset; the size change of the entry at p matters only
      when it is not itself the tail. */
  method ShiftTail(z: bytes, p: nat, shift: int, nextdiff: int, ghost e: Node, ghost t: seq<Node>)
    returns (r: bytes)
    requires |z| > HEADER && HEADER <= p && Region(z, p, [e] + t) && AllReadable([e] + t)
    requires 0 <= ZlTail(z) + shift + (if t == [] then 0 else nextdiff) < U32
    ensures |r| == |z| && ZlBytes(r) == ZlBytes(z) && ZlCount(r) == ZlCount(z)
    ensures ZlTail(r) == ZlTail(z) + shift + (if t == [] then 0 else nextdiff)
    ensures forall i :: HEADER <= i < |z| ==> r[i] == z[i]
  {
    hide Ser, Raw, PrevField, Region, ZlBytes, ZlTail, ZlCount, BodyOk, TailDist;
    RegionRead(z, p, [e] + t);
    assert ([e] + t)[0] == e && ([e] + t)[1..] == t;
    RegionRead(z, p + RawLen(e), t);
    var tail := ZlTail(z) + shift;
    if z[p + RawEntryLength(z, p)] != ZIP_END {
      tail := tail + nextdiff;
    }
    r := SetTail(z, tail);
  }

  lemma TailInside(z: bytes, p: nat, es: seq<Node>)
    requires Region(z, p, es)
    ensures p + TailDist(es) < |z|
  {
    hide Raw;
    RegionHead(z, p, es);
    if es != [] { SerSplit(es, |es| - 1); }
  }

  /** The parts of a list after insertion, put together. */
  lemma Assemble(z: bytes, front: seq<Node>, p: nat, e: Node, rest: seq<Node>)
    requires |z| > HEADER && ZlBytes(z) == |z| && HEADER <= p
    requires Region(z, p + RawLen(e), rest)
    requires z[HEADER..p] == Ser(front) && z[p..p + RawLen(e)] == Raw(e)
    requires AllReadable(front) && Readable(e) && AllReadable(rest)
    requires ZlTail(z) == if rest == [] then p else p + RawLen(e) + TailDist(rest)
    ensures Section(z, HEADER, front + ([e] + rest))
  {
    hide Raw, BodyOk, ZlBytes, ZlTail;
    SerOne(e);
    RegionJoin(z, p, [e], p + RawLen(e), rest);
    RegionJoin(z, HEADER, front, p, [e] + rest);
    TailDistCons(e, rest);
    TailDistAppend(front, [e] + rest);
  }

  /** The prevlen of an entry inserted at p. */
  method PrevLenFor(z: bytes, p: nat, ghost es: seq<Node>, ghost k: nat) returns (prevlen: nat)
    requires Wf(z, es) && k <= |es| && p == Offset(es, k)
    ensures p < |z| && (z[p] == ZIP_END <==> k == |es|)
    ensures prevlen == (if k < |es| then es[k].prev else LastLen(0, es)) < U32
  {
    hide Ser, Raw, BodyOk, ZlBytes, ZlTail, ZlCount, Chain, Region, TailDist, Get4;
    Locate(z, es, k);
    RegionRead(z, p, es[k..]);
    if z[p] != ZIP_END {
      prevlen := PrevLen(z, p);
    } else {
      prevlen := 0;
      var ptail := ZlTail(z);
      if es == [] {
        assert ptail == p by { NoOffset(es); }
      } else {
        ghost var n := |es| - 1;
        LastEntry(z, es);
        RegionRead(z, ptail, es[n..]);
        assert es[n..][0] == es[n];
      }
      if z[ptail] != ZIP_END {
        prevlen := RawEntryLength(z, ptail);
      }
    }
  }

  lemma NoOffset(es: seq<Node>)
    ensures Offset(es, 0) == HEADER
  {}

  lemma LastEntry(z: bytes, es: seq<Node>)
    requires Wf(z, es) && es != [] && |z| < U32
    ensures Region(z, ZlTail(z), es[|es| - 1..]) && RawLen(es[|es| - 1]) < U32
  {
    hide Raw, BodyOk, ZlBytes, ZlTail, ZlCount, Chain;
    var n := |es| - 1;
    Locate(z, es, n);
    RegionHead(z, ZlTail(z), es[n..]);
  }

  lemma ThreeParts(r: bytes, p: nat, a: bytes, b: bytes, c: bytes)
    requires p + |a| + |b| + |c| <= |r|
    requires r[p..p + |a|] == a && r[p + |a|..p + |a| + |b|] == b
    requires r[p + |a| + |b|..p + |a| + |b| + |c|] == c
    ensures r[p..p + |a| + |b| + |c|] == a + (b + c)
  {
    assert r[p..p + |a| + |b| + |c|] ==
      r[p..p + |a|] + (r[p + |a|..p + |a| + |b|] + r[p + |a| + |b|..p + |a| + |b| + |c|]);
  }

  lemma SameBefore(a: bytes, b: bytes, i: nat, j: nat)
    requires HEADER <= i <= j <= |a| == |b| && forall x :: HEADER <= x < j ==> a[x] == b[x]
    ensures a[i..j] == b[i..j]
  {}

  /** The header and the payload that __ziplistInsert writes are BodyFor. */
  lemma BodyParts(s: bytes, isInt: bool, value: int, enc: u8)
    requires |s| < U32
    requires isInt ==> IsI64(value) && Util.Text(value) == s && enc == IntEncoding(value)
    requires !isInt ==> !Util.IsIntText(s) && enc == 0
    ensures IsStr(enc) <==> !isInt
    ensures BodyFor(s) == EncodeLength(enc, |s|) + if isInt then SaveInteger(value, enc) else s
  {
    if isInt {
      BodyForInt(s, value);
      IntegerRoundTrip(value);
    }
  }

  /** Write the inserted entry into its gap. */
  method WriteEntry(z: bytes, p: nat, prevlen: nat, s: bytes, isInt: bool, value: int, enc: u8) returns (r: bytes)
    requires |z| > HEADER && HEADER <= p && |s| < U32
    requires isInt ==> IsI64(value) && Util.Text(value) == s && enc == IntEncoding(value)
    requires !isInt ==> !Util.IsIntText(s) && enc == 0
    requires p + PrevSizeFor(prevlen) + |BodyFor(s)| <= |z|
    ensures |r| == |z| && ZlBytes(r) == ZlBytes(z) && ZlTail(r) == ZlTail(z) && ZlCount(r) == ZlCount(z)
    ensures var e := Node(prevlen, prevlen >= ZIP_BIGLEN, BodyFor(s));
            r[p..p + RawLen(e)] == Raw(e)
            && forall i :: HEADER <= i < p || p + RawLen(e) <= i < |z| ==> r[i] == z[i]
  {
    hide ZlBytes, ZlTail, ZlCount, PrevField, SaveInteger, BodyFor, EncodeLength, IsStr, IntEncoding;
    BodyParts(s, isInt, value, enc);
    var field := PrevField(prevlen, prevlen >= ZIP_BIGLEN);
    var head := EncodeLength(enc, |s|);
    ghost var payload := if isInt then SaveInteger(value, enc) else s;
    r := Store(z, p, field);
    ghost var f := r;
    r := Store(r, p + |field|, head);
    ghost var h := r;
    var q := p + |field| + |head|;
    if IsStr(enc) {
      r := Store(r, q, s);
    } else {
      r := Store(r, q, SaveInteger(value, enc));
    }
    SameBefore(h, r, p + |field|, q);
    SameBefore(f, h, p, p + |field|);
    SameBefore(h, r, p, p + |field|);
    ThreeParts(r, p, field, head, payload);
  }

  /** ZIPLIST_INCR_LENGTH: a saturated counter is left alone. */
  method IncrLength(z: bytes, incr: int) returns (r: bytes)
    requires |z| > HEADER && -U32 < incr < U32
    ensures |r| == |z| && ZlBytes(r) == ZlBytes(z) && ZlTail(r) == ZlTail(z)
    ensures ZlCount(r) == if ZlCount(z) < U16 - 1 then (ZlCount(z) + incr) % U16 else ZlCount(z)
    ensures forall i :: HEADER <= i < |z| ==> r[i] == z[i]
  {
    r := z;
    if ZlCount(z) < U16 - 1 {
      r := SetCount(z, (ZlCount(z) + incr) % U16);
    }
  }

  lemma SectionSame(z: bytes, w: bytes, p: nat, es: seq<Node>)
    requires Section(z, p, es) && |w| == |z|
    requires ZlBytes(w) == ZlBytes(z) && ZlTail(w) == ZlTail(z)
    requires forall i :: p <= i < |z| ==> w[i] == z[i]
    ensures Section(w, p, es)
  {
    hide Ser, Raw, Region, ZlBytes, ZlTail, ZlCount, BodyOk, TailDist;
    RegionSame(z, w, p, es);
  }

  /** Open the gap before entry e and repair the links behind it. */
  method OpenAndCascade(z: bytes, p: nat, reqlen: nat, ghost e: Node, ghost t: seq<Node>) returns (r: bytes)
    requires Section(z, p, [e] + t) && Chain(RawLen(e), t)
    requires reqlen >= 2 && |z| + reqlen + 4 + 4 * |[e] + t| < U32
    ensures var next := NextNode(reqlen, e);
            Section(r, p + reqlen, [next] + Relink(RawLen(next), t))
    ensures ZlCount(r) == ZlCount(z)
    ensures forall i :: HEADER <= i < p ==> r[i] == z[i]
  {
    hide Ser, Raw, PrevField, Region, ZlBytes, ZlTail, ZlCount, BodyOk, TailDist, Relink, Chain;
    ghost var next := NextNode(reqlen, e);
    var nextdiff;
    r, nextdiff := OpenGap(z, p, reqlen, e, t);
    assert ([next] + t)[0] == next && ([next] + t)[1..] == t && ([e] + t)[1..] == t;
    assert Cascaded([next] + t) == [next] + Relink(RawLen(next), t);
    if nextdiff != 0 {
      assert ChainedAfterFirst([next] + t) by { ChainedTail(e, t, next); }
      r := CascadeUpdate(r, p + reqlen, [next] + t);
    } else {
      assert AllReadable(t) by { assert forall i :: 0 <= i < |t| ==> t[i] == ([e] + t)[i + 1]; }
      RelinkStable(RawLen(next), t);
    }
  }

  lemma SectionAt(z: bytes, es: seq<Node>, k: nat)
    requires Section(z, HEADER, es) && k < |es|
    ensures Section(z, Offset(es, k), [es[k]] + es[k + 1..])
    ensures z[HEADER..Offset(es, k)] == Ser(es[..k]) && AllReadable(es[..k])
  {
    hide Ser, Raw, ZlBytes, ZlTail, ZlCount, BodyOk, TailDist, Region;
    Locate(z, es, k);
    assert es[k..] == [es[k]] + es[k + 1..];
    TailDistAppend(es[..k], es[k..]);
    SplitAt(es, k);
  }

  lemma EntrySize(s: bytes, isInt: bool, value: int, enc: u8)
    requires |s| < U32
    requires isInt ==> IsI64(value) && Util.Text(value) == s && enc == IntEncoding(value)
    requires !isInt ==> !Util.IsIntText(s) && enc == 0
    ensures |BodyFor(s)| == EncodeLengthSize(enc, |s|) + (if isInt then IntSize(enc) else |s|)
    ensures 1 <= |BodyFor(s)| <= |s| + 9 && BodyOk(BodyFor(s))
  {
    hide BodyFor, BodyText;
    BodyParts(s, isInt, value, enc);
    BodyRoundTrip(s);
    if isInt { IntegerRoundTrip(value); }
  }

  /** Insertion before the entry at p. */
  method InsertMiddle(zl: bytes, p: nat, s: bytes, prevlen: nat, reqlen: nat, isInt: bool, value: int, enc: u8,
      ghost es: seq<Node>, ghost k: nat) returns (z: bytes)
    requires Wf(zl, es) && k < |es| && p == Offset(es, k) && prevlen == es[k].prev
    requires isInt ==> IsI64(value) && Util.Text(value) == s && enc == IntEncoding(value)
    requires !isInt ==> !Util.IsIntText(s) && enc == 0
    requires |zl| + |s| + 4 * |es| + 20 < U32
    requires 2 <= reqlen == PrevSizeFor(prevlen) + |BodyFor(s)| <= |s| + 14 && BodyOk(BodyFor(s))
    ensures Section(z, HEADER, InsertNodes(es, k, BodyFor(s))) && ZlCount(z) == ZlCount(zl)
  {
    hide Ser, Raw, PrevField, Region, ZlBytes, ZlTail, ZlCount, BodyOk, TailDist, Relink, Chain, Offset, BodyFor;
    hide EncodeLength, IsStr, IntEncoding, IntSize, SaveInteger;
    SectionAt(zl, es, k);
    ChainSplit(0, es, k);
    ghost var t := es[k + 1..];
    RegionHead(zl, p, [es[k]] + t);
    z := OpenAndCascade(zl, p, reqlen, es[k], t);
    ghost var e := Node(prevlen, prevlen >= ZIP_BIGLEN, BodyFor(s));
    ghost var next := NextNode(reqlen, es[k]);
    ghost var rest := [next] + Relink(RawLen(next), t);
    RegionHead(z, p + reqlen, rest);
    ghost var w := z;
    z := WriteEntry(z, p, prevlen, s, isInt, value, enc);
    SectionSame(w, z, p + reqlen, rest);
    assert z[HEADER..p] == zl[HEADER..p];
    Assemble(z, es[..k], p, e, rest);
  }

  /** Insertion at the end mark: the new entry becomes the tail. */
  method InsertEnd(zl: bytes, p: nat, s: bytes, prevlen: nat, reqlen: nat, isInt: bool, value: int, enc: u8,
      ghost es: seq<Node>) returns (z: bytes)
    requires Wf(zl, es) && p == Offset(es, |es|) && prevlen == LastLen(0, es) < U32
    requires isInt ==> IsI64(value) && Util.Text(value) == s && enc == IntEncoding(value)
    requires !isInt ==> !Util.IsIntText(s) && enc == 0
    requires |zl| + |s| + 20 < U32
    requires 2 <= reqlen == PrevSizeFor(prevlen) + |BodyFor(s)| <= |s| + 14 && BodyOk(BodyFor(s))
    ensures Section(z, HEADER, InsertNodes(es, |es|, BodyFor(s))) && ZlCount(z) == ZlCount(zl)
  {
    hide Ser, Raw, PrevField, ZlBytes, ZlTail, ZlCount, BodyOk, TailDist, Relink, Chain, Offset, BodyFor;
    hide EncodeLength, IsStr, IntEncoding, IntSize, SaveInteger;
    Locate(zl, es, |es|);
    RegionHead(zl, p, []) by { assert es[|es|..] == []; }
    assert es[..|es|] == es;
    z := Resize(zl, ZlBytes(zl) + reqlen);
    z := SetTail(z, p);
    ghost var w := z;
    z := WriteEntry(z, p, prevlen, s, isInt, value, enc);
    assert z[HEADER..p] == zl[HEADER..p];
    assert z[p + reqlen..] == [ZIP_END];
    ghost var e := Node(prevlen, prevlen >= ZIP_BIGLEN, BodyFor(s));
    EmptyRegion(z, p + reqlen);
    Assemble(z, es, p, e, []);
    assert [e] + [] == [e];
  }

  lemma EmptyRegion(z: bytes, p: nat)
    requires p <= |z| && z[p..] == [ZIP_END]
    ensures Region(z, p, [])
  {
    assert Ser([]) + [ZIP_END] == [ZIP_END];
  }

  /** __ziplistInsert. */
  method Insert(zl: bytes, p: nat, s: bytes, ghost es: seq<Node>, ghost k: nat) returns (z: bytes)
    requires Wf(zl, es) && k <= |es| && p == Offset(es, k)
    requires |zl| + |s| + 4 * |es| + 20 < U32
    ensures Wf(z, InsertNodes(es, k, BodyFor(s)))
  {
    hide Ser, Raw, PrevField, Region, ZlBytes, ZlTail, ZlCount, BodyOk, TailDist, Relink, Chain, Offset, BodyFor;
    hide EncodeLength, IsStr, IntEncoding, IntSize, SaveInteger;
    var prevlen := PrevLenFor(zl, p, es, k);
    var isInt, value, enc := ZipTryEncoding(s);
    if !isInt { enc := 0; }
    EntrySize(s, isInt, value, enc);
    var reqlen := if isInt then IntSize(enc) else |s|;
    reqlen := reqlen + PrevSizeFor(prevlen);
    reqlen := reqlen + EncodeLengthSize(enc, |s|);
    if zl[p] != ZIP_END {
      z := InsertMiddle(zl, p, s, prevlen, reqlen, isInt, value, enc, es, k);
    } else {
      z := InsertEnd(zl, p, s, prevlen, reqlen, isInt, value, enc, es);
    }
    ghost var w := z;
    z := IncrLength(z, 1);
    ghost var r := InsertNodes(es, k, BodyFor(s));
    SectionSame(w, z, HEADER, r);
    InsertNodesCorrect(es, k, BodyFor(s));
    InsertNodesSize(es, k, BodyFor(s));
  }

  lemma InsertNodesSize(es: seq<Node>, k: nat, body: bytes)
    requires k <= |es|
    ensures |InsertNodes(es, k, body)| == |es| + 1
  {
    hide Relink;
  }
}
