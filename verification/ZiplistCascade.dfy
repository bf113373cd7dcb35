// __ziplistCascadeUpdate (ziplist.c): after one entry changed size, the
// prevlen of the next is rewritten, which may change its size in turn.
module ZiplistCascade {
  import opened Bytes
  import opened Sequences
  import opened ZiplistEntry
  import opened ZiplistNodes
  import opened ZiplistBuffer

  /** What the cascade must achieve: all links after the first entry rewritten. */
  function Cascaded(es: seq<Node>): seq<Node> {
    if es == [] then [] else [es[0]] + Relink(RawLen(es[0]), es[1..])
  }

  lemma RegionSame(z: bytes, w: bytes, p: nat, es: seq<Node>)
    requires Region(z, p, es) && |w| == |z|
    requires forall i :: p <= i < |z| ==> w[i] == z[i]
    ensures Region(w, p, es)
  {
    hide Ser;
    assert w[p..] == z[p..];
  }

  /** Grow the one-byte prevlen at np to five bytes, moving the rest back. */
  method WidenPrev(z: bytes, np: nat, rawlen: nat, ghost n: Node, ghost t: seq<Node>) returns (r: bytes)
    requires HEADER <= np && Region(z, np, [n] + t) && !n.big
    requires ZlBytes(z) == |z| && |z| + 4 < U32 && ZlTail(z) + 4 < U32
    ensures |r| == |z| + 4 && ZlBytes(r) == |r| && ZlCount(r) == ZlCount(z)
    ensures ZlTail(r) == if ZlTail(z) == np then np else ZlTail(z) + 4
    ensures forall i :: HEADER <= i < np ==> r[i] == z[i]
    ensures Region(r, np, [Node(rawlen, true, n.body)] + t)
  {
    hide Ser, Raw, PrevField, Region, ZlBytes, ZlTail, ZlCount;
    RegionHead(z, np, [n] + t);
    var curlen := ZlBytes(z);
    r := Resize(z, curlen + 4);
    if ZlTail(r) != np {
      r := SetTail(r, ZlTail(r) + 4);
    }
    ghost var y := r;
    r := Move(r, np + 5, np + 1, curlen - np - 2);
    r := Store(r, np, PrevField(rawlen, true));
    MovedTail(z, y, r, np + 1, np + 5);
    RegionReplace(z, np, n, t, r, np, Node(rawlen, true, n.body));
  }

  /** memmove of the bytes up to the end mark, seen as equality of suffixes. */
  lemma MovedTail(z: bytes, y: bytes, r: bytes, src: nat, dst: nat)
    requires HEADER <= src <= dst <= |y| - 1 && src <= |z| - 1
    requires |r| == |y| && |y| - dst == |z| - src
    requires forall i :: src <= i < |z| - 1 ==> y[i] == z[i]
    requires z[|z| - 1] == ZIP_END == y[|y| - 1]
    requires forall i :: dst <= i < |y| - 1 ==> r[i] == y[src + (i - dst)]
    requires r[|y| - 1] == y[|y| - 1]
    ensures r[dst..] == z[src..]
  {
    forall k | 0 <= k < |z| - src
      ensures r[dst..][k] == z[src..][k]
    {
      assert r[dst..][k] == r[dst + k];
    }
  }

  /** All links hold except possibly the one between the first two entries. */
  ghost predicate ChainedAfterFirst(es: seq<Node>) {
    |es| >= 2 ==> Chain(RawLen(es[1]), es[2..])
  }

  /** A buffer part whose header words agree with the entries from p on. */
  ghost predicate Section(z: bytes, p: nat, es: seq<Node>) {
    && |z| > HEADER && HEADER <= p && Region(z, p, es) && AllReadable(es)
    && ZlBytes(z) == |z| && (es != [] ==> ZlTail(z) == p + TailDist(es))
  }

  lemma TailDistCons(e: Node, t: seq<Node>)
    ensures TailDist([e] + t) == if t == [] then 0 else RawLen(e) + TailDist(t)
  {
    hide Raw;
    if t == [] {
      assert [e][..0] == [];
    } else {
      assert ([e] + t)[..|t|] == [e] + t[..|t| - 1];
      SerCons(e, t[..|t| - 1]);
    }
  }

  lemma RegionJoin(z: bytes, p0: nat, a: seq<Node>, p: nat, b: seq<Node>)
    requires p0 <= p && Region(z, p, b) && z[p0..p] == Ser(a)
    ensures Region(z, p0, a + b)
  {
    SerAppend(a, b);
    hide Ser;
    assert p == p0 + |Ser(a)|;
    Joined(z, p0, Ser(a), Ser(b) + [ZIP_END]);
    Assoc(Ser(a), Ser(b), [ZIP_END]);
  }

  /** Store a predecessor length in the field that is already there. */
  method RewritePrev(z: bytes, np: nat, rawlen: nat, big: bool, ghost n: Node, ghost t: seq<Node>)
    returns (r: bytes)
    requires HEADER <= np && Region(z, np, [n] + t) && AllReadable([n] + t) && big == n.big
    ensures |r| == |z| && ZlBytes(r) == ZlBytes(z) && ZlTail(r) == ZlTail(z) && ZlCount(r) == ZlCount(z)
    ensures forall i :: HEADER <= i < np ==> r[i] == z[i]
    ensures Region(r, np, [Node(rawlen, n.big, n.body)] + t)
  {
    hide Ser, Raw, PrevField, Region, ZlBytes, ZlTail, ZlCount;
    RegionHead(z, np, [n] + t);
    RegionRead(z, np, [n] + t);
    r := Store(z, np, PrevField(rawlen, big));
    ghost var o := np + PrevSize(z, np);
    assert r[o..] == z[o..];
    RegionReplace(z, np, n, t, r, np, Node(rawlen, n.big, n.body));
  }

  lemma CascadedStep(c: Node, n: Node, t: seq<Node>)
    ensures Cascaded([c] + ([n] + t)) == [c] + Cascaded([Relinked(RawLen(c), n)] + t)
  {
    var n' := Relinked(RawLen(c), n);
    assert ([c] + ([n] + t))[1..] == [n] + t && ([n] + t)[1..] == t && ([n'] + t)[1..] == t;
  }

  /** Once a link holds without changing its entry's size, all later ones hold. */
  lemma CascadedStop(c: Node, n: Node, t: seq<Node>)
    requires Chain(RawLen(n), t) && AllReadable(t) && Relinked(RawLen(c), n).big == n.big
    ensures Cascaded([c] + ([n] + t)) == [c] + ([Relinked(RawLen(c), n)] + t)
  {
    CascadedStep(c, n, t);
    var n' := Relinked(RawLen(c), n);
    RelinkStable(RawLen(n'), t);
    assert ([n'] + t)[1..] == t;
  }

  lemma CascadedLast(c: Node)
    ensures Cascaded([c]) == [c]
  {
    assert [c][1..] == [];
  }

  /** Everything the loop knows: done is final, rest still has to cascade. */
  ghost predicate Progress(zl: bytes, p0: nat, es: seq<Node>, z: bytes, p: nat, done: seq<Node>, rest: seq<Node>) {
    && rest != [] && Section(z, p, rest) && ChainedAfterFirst(rest) && AllReadable(done)
    && Cascaded(es) == done + Cascaded(rest)
    && |zl| > HEADER && HEADER <= p0 <= p && p0 <= |zl| && z[p0..p] == Ser(done)
    && (forall i :: HEADER <= i < p0 ==> z[i] == zl[i])
    && ZlCount(z) == ZlCount(zl)
    && |Ser(rest)| + 4 * |rest| + p <= |zl| + 4 * |es| < U32
  }

  /** The buffer after the cascade. */
  ghost predicate Cascade(zl: bytes, p0: nat, es: seq<Node>, z: bytes) {
    && Section(z, p0, Cascaded(es)) && p0 <= |zl| && |zl| > HEADER
    && (forall i :: HEADER <= i < p0 ==> z[i] == zl[i])
    && ZlCount(z) == ZlCount(zl)
  }

  lemma FinishWith(zl: bytes, p0: nat, es: seq<Node>, w: bytes, p: nat, done: seq<Node>, last: seq<Node>)
    requires last != [] && Section(w, p, last) && AllReadable(done)
    requires Cascaded(es) == done + last
    requires |zl| > HEADER && HEADER <= p0 <= p && p0 <= |zl| && w[p0..p] == Ser(done)
    requires forall i :: HEADER <= i < p0 ==> w[i] == zl[i]
    requires ZlCount(w) == ZlCount(zl)
    ensures Cascade(zl, p0, es, w)
  {
    hide Ser, Raw, Cascaded, ZlBytes, ZlTail, ZlCount, TailDist, BodyOk;
    RegionJoin(w, p0, done, p, last);
    TailDistAppend(done, last);
  }

  lemma TailDistAppend(a: seq<Node>, b: seq<Node>)
    requires b != []
    ensures TailDist(a + b) == |Ser(a)| + TailDist(b)
  {
    assert (a + b)[..|a + b| - 1] == a + b[..|b| - 1];
    SerAppend(a, b[..|b| - 1]);
  }

  lemma ProgressInit(zl: bytes, p0: nat, es: seq<Node>)
    requires es != [] && Section(zl, p0, es) && ChainedAfterFirst(es) && |zl| + 4 * |es| < U32
    ensures Progress(zl, p0, es, zl, p0, [], es)
  {
    hide Raw, Cascaded, Chain;
    assert zl[p0..p0] == [];
    RegionHead(zl, p0, es);
  }

  /** The links already hold from rest on: stop. */
  lemma FinishStable(zl: bytes, p0: nat, es: seq<Node>, z: bytes, p: nat, done: seq<Node>, rest: seq<Node>)
    requires Progress(zl, p0, es, z, p, done, rest)
    requires |rest| >= 2 ==> rest[1].prev == RawLen(rest[0])
    ensures Cascade(zl, p0, es, z)
  {
    hide Raw, Region, BodyOk;
    if |rest| == 1 {
      CascadedLast(rest[0]);
    } else {
      RelinkStable(RawLen(rest[0]), rest[1..]);
      assert rest[1..][1..] == rest[2..];
    }
    assert Cascaded(rest) == rest;
    FinishWith(zl, p0, es, z, p, done, rest);
  }

  /** The next field was rewritten in place: stop. */
  lemma FinishRewritten(zl: bytes, p0: nat, es: seq<Node>, z: bytes, p: nat, done: seq<Node>,
      c: Node, n: Node, t: seq<Node>, w: bytes)
    requires Progress(zl, p0, es, z, p, done, [c] + ([n] + t))
    requires n.big || RawLen(c) < ZIP_BIGLEN
    requires var n' := Node(RawLen(c), n.big, n.body); Region(w, p + RawLen(c), [n'] + t)
    requires |w| == |z| && ZlBytes(w) == ZlBytes(z) && ZlTail(w) == ZlTail(z) && ZlCount(w) == ZlCount(z)
    requires forall i :: HEADER <= i < p + RawLen(c) ==> w[i] == z[i]
    ensures Cascade(zl, p0, es, w)
  {
    hide Raw, Region, BodyOk, ZlBytes, ZlTail, ZlCount, Cascaded;
    var n' := Node(RawLen(c), n.big, n.body);
    assert ([c] + ([n] + t))[1] == n && ([c] + ([n] + t))[2..] == t && ([c] + ([n] + t))[0] == c;
    CascadedStop(c, n, t);
    RegionHead(z, p, [c] + ([n] + t));
    assert Section(w, p, [c] + ([n'] + t)) by {
      assert w[p..p + RawLen(c)] == z[p..p + RawLen(c)] == Raw(c);
      SerOne(c);
      RegionJoin(w, p, [c], p + RawLen(c), [n'] + t);
      TailDistCons(c, [n] + t);
      TailDistCons(c, [n'] + t);
      TailDistCons(n, t);
      TailDistCons(n', t);
      RegionHead(z, p + RawLen(c), [n] + t);
    }
    assert w[p0..p] == z[p0..p];
    FinishWith(zl, p0, es, w, p, done, [c] + ([n'] + t));
  }

  /** The next field was widened: its entry is the new first one of the rest. */
  lemma ProgressWidened(zl: bytes, p0: nat, es: seq<Node>, z: bytes, p: nat, done: seq<Node>,
      c: Node, n: Node, t: seq<Node>, w: bytes)
    requires Progress(zl, p0, es, z, p, done, [c] + ([n] + t))
    requires !n.big && ZIP_BIGLEN <= RawLen(c)
    requires var n' := Node(RawLen(c), true, n.body); Region(w, p + RawLen(c), [n'] + t)
    requires |w| == |z| + 4 && ZlBytes(w) == |w| && ZlCount(w) == ZlCount(z)
    requires ZlTail(w) == if ZlTail(z) == p + RawLen(c) then p + RawLen(c) else ZlTail(z) + 4
    requires forall i :: HEADER <= i < p + RawLen(c) ==> w[i] == z[i]
    ensures Progress(zl, p0, es, w, p + RawLen(c), done + [c], [Node(RawLen(c), true, n.body)] + t)
  {
    hide Raw, Region, BodyOk, ZlBytes, ZlTail, ZlCount, Cascaded, Chain, Ser, TailDist;
    var n', rest, np := Node(RawLen(c), true, n.body), [c] + ([n] + t), p + RawLen(c);
    assert rest[1] == n && rest[2..] == t && rest[0] == c && rest[1..] == [n] + t;
    RegionHead(z, p, rest);
    RegionHead(z, np, [n] + t);
    RegionHead(w, np, [n'] + t);
    CascadedStep(c, n, t);
    Assoc(done, [c], Cascaded([n'] + t));
    DoneGrows(w, z, p0, p, done, c);
    TailDistCons(c, [n] + t);
    TailDistCons(n, t);
    TailDistCons(n', t);
    RelinkedSection(w, np, n', t, n);
    ChainedTail(n, t, n');
  }

  lemma DoneGrows(w: bytes, z: bytes, p0: nat, p: nat, done: seq<Node>, c: Node)
    requires HEADER <= p0 <= p && p + RawLen(c) <= |w| && p + RawLen(c) <= |z|
    requires z[p0..p] == Ser(done) && z[p..p + RawLen(c)] == Raw(c)
    requires forall k :: HEADER <= k < p + RawLen(c) ==> w[k] == z[k]
    ensures w[p0..p + RawLen(c)] == Ser(done + [c])
  {
    hide Raw;
    var np := p + RawLen(c);
    SameSlice(w, z, p0, np);
    SplitAt(z[p0..np], p - p0);
    assert z[p0..np][..p - p0] == z[p0..p] && z[p0..np][p - p0..] == z[p..np];
    SerOne(c);
    SerAppend(done, [c]);
  }

  lemma CascadedNil()
    ensures Cascaded([]) == []
  {}

  lemma WidenFits(zl: bytes, p0: nat, es: seq<Node>, z: bytes, p: nat, done: seq<Node>, rest: seq<Node>)
    requires Progress(zl, p0, es, z, p, done, rest) && |rest| >= 2
    ensures |z| + 4 < U32 && ZlTail(z) + 4 < U32
  {
    hide Raw, BodyOk, ZlBytes, ZlTail, ZlCount, Cascaded, Chain;
    RegionHead(z, p, rest);
    SerSplit(rest, |rest| - 1);
  }

  lemma SameSlice(w: bytes, z: bytes, i: nat, j: nat)
    requires HEADER <= i <= j <= |w| && j <= |z| && forall k :: HEADER <= k < j ==> w[k] == z[k]
    ensures w[i..j] == z[i..j]
  {}

  lemma RelinkedSection(w: bytes, np: nat, n': Node, t: seq<Node>, n: Node)
    requires |w| > HEADER && HEADER <= np && Region(w, np, [n'] + t) && AllReadable([n] + t)
    requires n'.prev < U32 && n'.big && n'.body == n.body
    requires ZlBytes(w) == |w| && ZlTail(w) == np + TailDist([n'] + t)
    ensures Section(w, np, [n'] + t)
  {
    hide Raw, Region, BodyOk, ZlBytes, ZlTail;
    assert ([n] + t)[0] == n;
    assert forall i :: 1 <= i < |[n'] + t| ==> ([n'] + t)[i] == ([n] + t)[i];
  }

  lemma ChainedTail(n: Node, t: seq<Node>, n': Node)
    requires Chain(RawLen(n), t)
    ensures ChainedAfterFirst([n'] + t)
  {
    if t != [] { assert ([n'] + t)[1] == t[0] && ([n'] + t)[2..] == t[1..]; }
  }

  lemma CascadeShort(zl: bytes, p0: nat, es: seq<Node>)
    requires Section(zl, p0, es) && |es| <= 1 && p0 <= |zl|
    ensures Cascade(zl, p0, es, zl)
  {
    hide Ser, Raw, Region, ZlBytes, ZlTail, ZlCount, TailDist, BodyOk;
    if es == [] { CascadedNil(); } else { CascadedLast(es[0]); assert es == [es[0]]; }
  }

  /** A list of at most one entry is left alone, whatever its tail offset says. */
  method CascadeUpdate(zl: bytes, p0: nat, ghost es: seq<Node>) returns (z: bytes)
    requires |zl| > HEADER && HEADER <= p0 && Region(zl, p0, es) && AllReadable(es)
    requires |es| >= 2 ==> Section(zl, p0, es) && ChainedAfterFirst(es) && |zl| + 4 * |es| < U32
    ensures Section(zl, p0, es) ==> Cascade(zl, p0, es, z)
    ensures |es| <= 1 ==> z == zl
  {
    hide Ser, Raw, PrevField, Region, ZlBytes, ZlTail, ZlCount, TailDist, BodyOk, Cascaded, Get4, Chain;
    z := zl;
    var p: nat := p0;
    ghost var done, rest := [], es;
    RegionRead(z, p, es);
    if |es| >= 2 { ProgressInit(zl, p0, es); }
    if |es| <= 1 && Section(zl, p0, es) { CascadeShort(zl, p0, es); }
    while z[p] != ZIP_END
      invariant |es| >= 2 ==> Progress(zl, p0, es, z, p, done, rest)
      invariant |es| <= 1 ==> z == zl && p == p0 && rest == es
      invariant p < |z| && Region(z, p, rest) && AllReadable(rest)
      decreases |rest|
    {
      RegionRead(z, p, rest);
      ghost var c, t := rest[0], rest[1..];
      var rawlen := RawEntryLength(z, p);
      var rawlensize := PrevSizeFor(rawlen);
      RegionRead(z, p + rawlen, t);
      // no next entry
      if z[p + rawlen] == ZIP_END {
        if |es| >= 2 { FinishStable(zl, p0, es, z, p, done, rest); }
        return;
      }
      // prevlen has not changed
      if PrevLen(z, p + rawlen) == rawlen {
        FinishStable(zl, p0, es, z, p, done, rest);
        return;
      }
      ghost var n, u := t[0], t[1..];
      assert rest == [c] + ([n] + u);
      var nextsize := PrevSize(z, p + rawlen);
      if nextsize < rawlensize {
        WidenFits(zl, p0, es, z, p, done, rest);
        var w := WidenPrev(z, p + rawlen, rawlen, n, u);
        ProgressWidened(zl, p0, es, z, p, done, c, n, u, w);
        z, done, rest := w, done + [c], [Node(rawlen, true, n.body)] + u;
        p := p + rawlen;
        RegionRead(z, p, rest);
      } else {
        // a larger field than needed is kept
        var w := RewritePrev(z, p + rawlen, rawlen, nextsize > rawlensize || rawlen >= ZIP_BIGLEN, n, u);
        FinishRewritten(zl, p0, es, z, p, done, c, n, u, w);
        z := w;
        return;
      }
    }
    RegionRead(z, p, rest);
  }
}
