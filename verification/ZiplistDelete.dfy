// __ziplistDelete (ziplist.c): close the gap, repair the following links.
module ZiplistDelete {
  import opened Bytes
  import opened ZiplistEntry
  import opened ZiplistNodes
  import opened ZiplistBuffer
  import opened ZiplistCascade
  import opened ZiplistInsert

  function Min(a: nat, b: nat): nat { if a <= b then a else b }

  /** Step over up to num entries. */
  method SkipEntries(z: bytes, p: nat, num: nat, ghost es: seq<Node>, ghost k: nat) returns (q: nat, deleted: nat)
    requires Section(z, HEADER, es) && k <= |es| && p == Offset(es, k)
    ensures deleted == Min(num, |es| - k) && q == Offset(es, k + deleted) < |z|
    ensures z[q] == ZIP_END <==> k + deleted == |es|
  {
    hide Ser, Raw, Region, BodyOk, ZlBytes, ZlTail, ZlCount, TailDist;
    q, deleted := p, 0;
    Locate(z, es, k);
    RegionRead(z, q, es[k..]);
    while z[q] != ZIP_END && deleted < num
      invariant k + deleted <= |es| && deleted <= num && q == Offset(es, k + deleted) < |z|
      invariant z[q] == ZIP_END <==> k + deleted == |es|
      decreases num - deleted
    {
      Locate(z, es, k + deleted);
      RegionRead(z, q, es[k + deleted..]);
      NextOffset(es, k + deleted);
      q := q + RawEntryLength(z, q);
      deleted := deleted + 1;
      Locate(z, es, k + deleted);
      RegionRead(z, q, es[k + deleted..]);
    }
  }

  lemma NextOffset(es: seq<Node>, k: nat)
    requires k < |es|
    ensures Offset(es, k + 1) == Offset(es, k) + RawLen(es[k]) && es[k..][0] == es[k]
  {
    hide Raw;
    assert es[..k + 1] == es[..k] + [es[k]];
    SerAppend(es[..k], [es[k]]);
    SerOne(es[k]);
  }

  /** The entry that follows the deleted ones, linked to the one before them. */
  function JoinNode(prevlen: nat, e: Node): Node {
    Node(prevlen, prevlen >= ZIP_BIGLEN, e.body)
  }

  /** memmove to the front and resize: what was at q is now at fp. */
  method PullBack(z: bytes, fp: nat, q: nat, ghost es: seq<Node>) returns (r: bytes)
    requires |z| > HEADER && HEADER <= fp <= q && Region(z, q, es) && ZlBytes(z) == |z|
    ensures |r| == |z| - (q - fp) && ZlBytes(r) == |r| && ZlTail(r) == ZlTail(z) && ZlCount(r) == ZlCount(z)
    ensures Region(r, fp, es)
    ensures forall i :: HEADER <= i < fp ==> r[i] == z[i]
  {
    hide Ser, Raw, ZlBytes, ZlTail, ZlCount;
    RegionHead(z, q, es);
    var bytes := ZlBytes(z);
    r := Move(z, fp, q, bytes - q - 1);
    r := Resize(r, bytes - (q - fp));
    assert forall i :: fp <= i < |r| ==> r[i] == z[q + (i - fp)];
    assert r[fp..] == z[q..];
  }

  /** Remove the bytes fp..p and link the entry at p to what precedes fp. */
  method CloseGap(z: bytes, fp: nat, p: nat, prevlen: nat, ghost e: Node, ghost t: seq<Node>)
    returns (r: bytes, nextdiff: int)
    requires Section(z, p, [e] + t) && HEADER <= fp < p && prevlen < U32
    requires prevlen >= ZIP_BIGLEN ==> fp + 5 <= p
    ensures nextdiff == RawLen(JoinNode(prevlen, e)) - RawLen(e)
    ensures Section(r, fp, [JoinNode(prevlen, e)] + t) && ZlCount(r) == ZlCount(z)
    ensures |r| == |z| - (p - fp) + nextdiff
    ensures forall i :: HEADER <= i < fp ==> r[i] == z[i]
  {
    hide Ser, Raw, PrevField, Region, ZlBytes, ZlTail, ZlCount, BodyOk, TailDist;
    RegionHead(z, p, [e] + t);
    RegionRead(z, p, [e] + t);
    assert ([e] + t)[0] == e;
    ghost var next := JoinNode(prevlen, e);
    nextdiff := PrevSizeFor(prevlen) - PrevSize(z, p);
    var totlen := p - fp;
    var q := p - nextdiff;
    r := Store(z, q, PrevField(prevlen, prevlen >= ZIP_BIGLEN));
    assert r[p + PrevSize(z, p)..] == z[p + PrevSize(z, p)..];
    RegionReplace(z, p, e, t, r, q, next);
    NextReadable(e, t, next);
    TailDistCons(e, t);
    TailDistCons(next, t);
    TailInside(r, q, [next] + t);
    ghost var w := r;
    r := ShiftTail(r, q, -totlen, nextdiff, next, t);
    RegionSame(w, r, q, [next] + t);
    r := PullBack(r, fp, q, [next] + t);
  }

  /** Close the gap and repair the links behind it. */
  method CloseAndCascade(z: bytes, fp: nat, p: nat, prevlen: nat, deleted: nat, ghost e: Node, ghost t: seq<Node>)
    returns (r: bytes)
    requires Section(z, p, [e] + t) && HEADER <= fp < p && prevlen < U32 && deleted < U32
    requires prevlen >= ZIP_BIGLEN ==> fp + 5 <= p
    requires Chain(RawLen(e), t) && |z| + 4 * |[e] + t| + 4 < U32
    ensures var next := JoinNode(prevlen, e);
            Section(r, fp, [next] + Relink(RawLen(next), t))
    ensures ZlCount(r) == if ZlCount(z) < U16 - 1 then (ZlCount(z) - deleted) % U16 else ZlCount(z)
    ensures forall i :: HEADER <= i < fp ==> r[i] == z[i]
  {
    hide Ser, Raw, PrevField, Region, ZlBytes, ZlTail, ZlCount, BodyOk, TailDist, Relink, Chain;
    ghost var next := JoinNode(prevlen, e);
    var nextdiff;
    r, nextdiff := CloseGap(z, fp, p, prevlen, e, t);
    ghost var w := r;
    r := IncrLength(r, 0 - deleted);
    SectionSame(w, r, fp, [next] + t);
    RegionHead(w, fp, [next] + t);
    assert ([next] + t)[0] == next && ([next] + t)[1..] == t && ([e] + t)[1..] == t;
    assert Cascaded([next] + t) == [next] + Relink(RawLen(next), t);
    if nextdiff != 0 {
      assert ChainedAfterFirst([next] + t) by { ChainedTail(e, t, next); }
      r := CascadeUpdate(r, fp, [next] + t);
    } else {
      assert AllReadable(t) by { assert forall i :: 0 <= i < |t| ==> t[i] == ([e] + t)[i + 1]; }
      RelinkStable(RawLen(next), t);
    }
  }

  lemma AssembleFront(z: bytes, front: seq<Node>, p: nat, rest: seq<Node>)
    requires |z| > HEADER && ZlBytes(z) == |z| && HEADER <= p
    requires Region(z, p, rest) && z[HEADER..p] == Ser(front)
    requires AllReadable(front) && AllReadable(rest)
    requires front + rest != [] ==>
               ZlTail(z) == if rest == [] then HEADER + TailDist(front) else p + TailDist(rest)
    ensures Section(z, HEADER, front + rest)
  {
    hide Raw, BodyOk, ZlBytes, ZlTail;
    RegionJoin(z, HEADER, front, p, rest);
    if rest != [] { TailDistAppend(front, rest); } else { assert front + rest == front; }
  }

  /** The bytes between two entry offsets hold the long prevlen of the first. */
  lemma GapSize(es: seq<Node>, k: nat, m: nat)
    requires k < m <= |es| && AllReadable(es)
    ensures Offset(es, m) >= Offset(es, k) + RawLen(es[k]) && RawLen(es[k]) >= 2
    ensures es[k].prev >= ZIP_BIGLEN ==> Offset(es, k) + 5 <= Offset(es, m)
    decreases m
  {
    hide Ser, Raw;
    NextOffset(es, m - 1);
    if m - 1 > k { GapSize(es, k, m - 1); }
  }

  method DeleteMiddle(zl: bytes, fp: nat, p: nat, prevlen: nat, deleted: nat, ghost es: seq<Node>, ghost k: nat)
    returns (z: bytes)
    requires Wf(zl, es) && 0 < deleted && k + deleted < |es|
    requires fp == Offset(es, k) && p == Offset(es, k + deleted) && prevlen == es[k].prev
    requires |zl| + 4 * |es| + 4 < U32
    ensures Section(z, HEADER, DeleteNodes(es, k, k + deleted))
    ensures ZlCount(z) == if ZlCount(zl) < U16 - 1 then (ZlCount(zl) - deleted) % U16 else ZlCount(zl)
  {
    hide Ser, Raw, PrevField, Region, ZlBytes, ZlTail, ZlCount, BodyOk, TailDist, Relink, Chain, Offset;
    ghost var m := k + deleted;
    SectionAt(zl, es, k);
    SectionAt(zl, es, m);
    ChainSplit(0, es, m);
    GapSize(es, k, m);
    ghost var t := es[m + 1..];
    RegionHead(zl, p, [es[m]] + t);
    z := CloseAndCascade(zl, fp, p, prevlen, deleted, es[m], t);
    ghost var next := JoinNode(prevlen, es[m]);
    ghost var rest := [next] + Relink(RawLen(next), t);
    RegionHead(z, fp, rest);
    assert z[HEADER..fp] == zl[HEADER..fp];
    AssembleFront(z, es[..k], fp, rest);
  }

  /** Everything from entry k on is deleted. */
  method DeleteTail(zl: bytes, fp: nat, p: nat, prevlen: nat, deleted: nat, ghost es: seq<Node>, ghost k: nat)
    returns (z: bytes)
    requires Wf(zl, es) && 0 < deleted && k + deleted == |es|
    requires fp == Offset(es, k) && p == Offset(es, |es|) && prevlen == es[k].prev && |es| < U32
    ensures Section(z, HEADER, DeleteNodes(es, k, |es|)) && (k == 0 ==> ZlTail(z) == HEADER)
    ensures ZlCount(z) == if ZlCount(zl) < U16 - 1 then (ZlCount(zl) - deleted) % U16 else ZlCount(zl)
  {
    hide Ser, Raw, PrevField, Region, ZlBytes, ZlTail, ZlCount, BodyOk, TailDist, Relink, Chain, Offset;
    SectionAt(zl, es, k);
    Locate(zl, es, |es|);
    assert es[|es|..] == [];
    RegionHead(zl, p, []);
    GapSize(es, k, |es|);
    TailOfFront(es, k);
    z := SetTail(zl, fp - prevlen);
    z := Resize(z, ZlBytes(z) - (p - fp));
    z := IncrLength(z, 0 - deleted);
    assert z[HEADER..fp] == zl[HEADER..fp];
    assert z[fp..] == [ZIP_END];
    EmptyRegion(z, fp);
    AssembleFront(z, es[..k], fp, []);
    assert es[..k] + [] == es[..k];
  }

  /** The entry before k starts prevlen bytes before it. */
  lemma TailOfFront(es: seq<Node>, k: nat)
    requires Chain(0, es) && k < |es|
    ensures es[k].prev <= Offset(es, k) - HEADER
    ensures Offset(es, k) - es[k].prev == HEADER + TailDist(es[..k])
  {
    hide Raw;
    ChainSplit(0, es, k);
    if k > 0 {
      NextOffset(es, k - 1);
      assert es[..k][..k - 1] == es[..k - 1];
    }
  }

  /** __ziplistDelete: remove up to num entries starting at entry k. */
  method Delete(zl: bytes, p: nat, num: nat, ghost es: seq<Node>, ghost k: nat) returns (z: bytes)
    requires Wf(zl, es) && k < |es| && p == Offset(es, k) && num < U32
    requires |zl| + 4 * |es| + 4 < U32
    ensures Wf(z, DeleteNodes(es, k, k + Min(num, |es| - k)))
  {
    hide Ser, Raw, PrevField, Region, ZlBytes, ZlTail, ZlCount, BodyOk, TailDist, Relink, Chain, Offset;
    hide DeleteNodes, Values;
    SectionAt(zl, es, k);
    RegionRead(zl, p, [es[k]] + es[k + 1..]);
    var firstprev := PrevLen(zl, p);
    var q, deleted := SkipEntries(zl, p, num, es, k);
    ghost var m := k + deleted;
    var totlen := q - p;
    if deleted > 0 { GapSize(es, k, m); }
    if totlen > 0 {
      if zl[q] != ZIP_END {
        z := DeleteMiddle(zl, p, q, firstprev, deleted, es, k);
      } else {
        z := DeleteTail(zl, p, q, firstprev, deleted, es, k);
      }
    } else {
      z := zl;
    }
    DeleteNodesCorrect(es, k, m);
    DeleteNodesSize(es, k, m);
  }

  lemma DeleteNodesSize(es: seq<Node>, k: nat, m: nat)
    requires k < |es| && k <= m <= |es|
    ensures |DeleteNodes(es, k, m)| == |es| - (m - k) && (k == m ==> DeleteNodes(es, k, m) == es)
  {
    hide Relink;
  }
}
