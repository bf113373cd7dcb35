// ziplistMerge (ziplist.c): append one ziplist to another, in either buffer.
module ZiplistMerge {
  import opened Bytes
  import opened ZiplistEntry
  import opened ZiplistNodes
  import opened ZiplistBuffer
  import opened ZiplistCascade
  import opened ZiplistInsert

  /** The merged list: only the links of the second part can change. */
  function MergeNodes(a: seq<Node>, b: seq<Node>): seq<Node> {
    a + Relink(LastLen(0, a), b)
  }

  /** Either way of copying gives the first buffer without its end mark
      followed by the second without its header. */
  method Concatenate(first: bytes, second: bytes, append: bool) returns (target: bytes)
    requires |first| > HEADER && |second| > HEADER
    ensures target == first[..|first| - 1] + second[HEADER..]
  {
    if append {
      target := Realloc(first, |first| + |second| - HEADER - 1);
      target := Splice(target, |first| - 1, second[HEADER..]);
    } else {
      target := Realloc(second, |first| + |second| - HEADER - 1);
      target := Splice(target, |first| - 1, target[HEADER..|second|]);
      target := Splice(target, 0, first[..|first| - 1]);
    }
  }

  /** The copied bytes are one region with the entries of both lists. */
  lemma SeamRegion(first: bytes, a: seq<Node>, second: bytes, b: seq<Node>, t: bytes)
    requires |first| > HEADER && |second| > HEADER
    requires Region(first, HEADER, a) && Region(second, HEADER, b)
    requires t == first[..|first| - 1] + second[HEADER..]
    ensures Region(t, HEADER, a + b) && |t| == HEADER + |Ser(a)| + |Ser(b)| + 1
  {
    hide Raw;
    RegionHead(first, HEADER, a);
    RegionHead(second, HEADER, b);
    var p := |first| - 1;
    assert t[HEADER..p] == Ser(a) by {
      assert t[HEADER..p] == first[HEADER..][..|Ser(a)|];
    }
    assert t[p..] == second[HEADER..];
    RegionJoin(t, HEADER, a, p, b);
  }

  /** A list that is linked up to its last entry but one, relinked from there. */
  lemma MergedParts(z: bytes, t: bytes, a: seq<Node>, p: nat, b: seq<Node>)
    requires a != [] && p == Offset(a, |a| - 1) <= |t| && |t| > HEADER
    requires Section(z, p, Cascaded([a[|a| - 1]] + b))
    requires Region(t, HEADER, a + b) && AllReadable(a)
    requires forall i :: HEADER <= i < p ==> t[i] == z[i]
    ensures Section(z, HEADER, MergeNodes(a, b))
  {
    hide Raw, BodyOk, ZlBytes, ZlTail;
    var n := |a| - 1;
    var last := a[n];
    var rest := Relink(RawLen(last), b);
    assert ([last] + b)[1..] == b;
    assert (a + b)[..n] == a[..n];
    Locate(t, a + b, n);
    assert z[HEADER..p] == t[HEADER..p] by { RegionHead(z, p, [last] + rest); }
    TailDistAppend(a[..n], [last] + rest);
    RegionJoin(z, HEADER, a[..n], p, [last] + rest);
    assert a[..n] + ([last] + rest) == a + rest;
  }

  /** The section that the cascade starts from: the tail of the first list. */
  lemma SeamSection(t: bytes, a: seq<Node>, b: seq<Node>)
    requires |t| > HEADER && Region(t, HEADER, a + b) && AllReadable(a) && AllReadable(b)
    requires a != [] && ZlBytes(t) == |t|
    requires b != [] ==> ZlTail(t) == HEADER + |Ser(a)| + TailDist(b)
    ensures var n := |a| - 1; var es := [a[n]] + b;
            Region(t, Offset(a, n), es) && AllReadable(es)
            && (b != [] ==> Section(t, Offset(a, n), es))
  {
    hide Raw, BodyOk, ZlBytes, ZlTail, Region;
    var n := |a| - 1;
    Locate(t, a + b, n);
    assert (a + b)[..n] == a[..n] && (a + b)[n..] == [a[n]] + b;
    TailDistCons(a[n], b);
    assert a == a[..n] + [a[n]];
    SerAppend(a[..n], [a[n]]);
    SerOne(a[n]);
  }

  /** zlbytes, the capped length and the tail offset of the merged list. */
  method MergeHeaders(t: bytes, first: bytes, second: bytes) returns (r: bytes)
    requires |first| > HEADER && |second| > HEADER && HEADER < |t| < U32
    requires HEADER <= ZlTail(second) && ZlBytes(first) == |first|
    requires |first| - 1 + (ZlTail(second) - HEADER) < U32
    ensures |r| == |t| && ZlBytes(r) == |t| && ZlTail(r) == |first| - 1 + (ZlTail(second) - HEADER)
    ensures ZlCount(r) == (if ZlCount(first) + ZlCount(second) < U16 - 1 then ZlCount(first) + ZlCount(second) else U16 - 1)
    ensures forall i :: HEADER <= i < |t| ==> r[i] == t[i]
  {
    var zllength := ZlCount(first) + ZlCount(second);
    zllength := if zllength < U16 - 1 then zllength else U16 - 1;
    r := Splice(t, 0, Le4(|t|));
    Get4OfLe4(r, 0, |t|);
    assert forall i :: HEADER <= i < |t| ==> r[i] == t[i];
    hide ZlBytes, ZlTail, ZlCount, Le4, Get4, Get2;
    assert ZlBytes(r) == |t| by { BytesWord(r); }
    r := SetCount(r, zllength);
    r := SetTail(r, (ZlBytes(first) - 1) + (ZlTail(second) - HEADER));
  }

  lemma BytesWord(r: bytes)
    requires |r| >= HEADER
    ensures ZlBytes(r) == Get4(r, 0)
  {}

  /** The tail offset of the result is right unless a non-empty list gets an empty one. */
  method Merge(first: bytes, second: bytes, ghost a: seq<Node>, ghost b: seq<Node>)
    returns (target: bytes, append: bool)
    requires Wf(first, a) && Wf(second, b) && |first| + |second| + 4 * |b| + 8 < U32
    ensures |target| > HEADER
    ensures append <==> ZlCount(first) >= ZlCount(second)
    ensures b != [] || a == [] ==> Wf(target, MergeNodes(a, b))
    ensures b == [] && a != [] ==> ZlTail(target) == |target| - 1 && forall fs :: !Wf(target, fs)
  {
    hide Ser, Raw, ZlBytes, ZlTail, ZlCount, BodyOk, TailDist, Relink, Chain, Offset, Region;
    append := ZlCount(first) >= ZlCount(second);
    target := Concatenate(first, second, append);
    SeamRegion(first, a, second, b, target);
    var firstOffset := ZlTail(first);
    TailFacts(first, a);
    TailFacts(second, b);
    ghost var t := target;
    target := MergeHeaders(target, first, second);
    RegionSame(t, target, HEADER, a + b);
    t := target;
    ghost var es := if a == [] then b else [a[|a| - 1]] + b;
    ChainedRest(b);
    EmptyParts();
    if a == [] {
      assert a + b == b;
      MergeIntoEmpty(b);
    } else {
      SeamSection(t, a, b);
      ChainedTailOf(a[|a| - 1], b);
    }
    target := CascadeUpdate(target, firstOffset, es);
    if b == [] && a != [] {
      assert a + b == a;
      NotWfAtEnd(target, a);
    } else {
      if a != [] { MergedParts(target, t, a, firstOffset, b); }
      MergeNodesCorrect(a, b);
    }
  }

  lemma EmptyParts()
    ensures Ser([]) == [] && TailDist([]) == 0
  {}

  lemma TailFacts(z: bytes, es: seq<Node>)
    requires Wf(z, es)
    ensures |z| == HEADER + |Ser(es)| + 1 && ZlTail(z) == HEADER + TailDist(es)
    ensures es != [] ==> ZlTail(z) == Offset(es, |es| - 1) < |z| - 1
    ensures 1 + |es| <= |z|
  {
    hide Raw, BodyOk, ZlBytes, ZlTail, ZlCount, Chain;
    RegionHead(z, HEADER, es);
    if es != [] { Locate(z, es, |es| - 1); RegionHead(z, ZlTail(z), es[|es| - 1..]); }
    SerLong(es);
  }

  lemma {:induction false} SerLong(es: seq<Node>)
    ensures |es| <= |Ser(es)|
  {
    hide Raw;
    if es != [] { SerLong(es[1..]); }
  }

  lemma MergeIntoEmpty(b: seq<Node>)
    requires Chain(0, b) && AllReadable(b)
    ensures MergeNodes([], b) == b && Cascaded(b) == b
  {
    RelinkStable(0, b);
    if b != [] { RelinkStable(RawLen(b[0]), b[1..]); assert b == [b[0]] + b[1..]; }
  }

  lemma ChainedRest(b: seq<Node>)
    requires Chain(0, b)
    ensures ChainedAfterFirst(b) && (b != [] ==> Chain(RawLen(b[0]), b[1..]))
  {
    if |b| >= 2 { assert b[1..][1..] == b[2..]; }
  }

  lemma ChainedTailOf(e: Node, b: seq<Node>)
    requires b != [] ==> Chain(RawLen(b[0]), b[1..])
    ensures ChainedAfterFirst([e] + b)
  {
    if b != [] { assert ([e] + b)[1] == b[0] && ([e] + b)[2..] == b[1..]; }
  }

  /** A tail offset at the end mark fits no list with these entries. */
  lemma NotWfAtEnd(z: bytes, a: seq<Node>)
    requires a != [] && |z| > HEADER && ZlTail(z) == |z| - 1 && Region(z, HEADER, a) && AllReadable(a)
    ensures forall fs :: !Wf(z, fs)
  {
    hide Raw, BodyOk, ZlBytes, ZlTail, ZlCount, Chain, Ser, TailDist, Offset, Region;
    forall fs | Wf(z, fs)
      ensures false
    {
      RegionUnique(z, HEADER, a, fs);
      TailFacts(z, fs);
    }
  }
}
