// Nodes of a skiplist (server.h, t_zset.c) and what insertion and deletion do
// to one link.
module SkiplistLinks {
  import opened Bytes
  import opened Sequences
  import opened SkiplistShape

  class Node {
    const score: Score
    const obj: bytes
    var backward: Node?
    var forward: seq<Node?>
    var span: seq<nat>

    /** zslCreateNode. */
    constructor (level: nat, score: Score, obj: bytes)
      ensures this.score == score && this.obj == obj
      ensures backward == null && |forward| == level && |span| == level
      ensures forall l :: 0 <= l < level ==> forward[l] == null && span[l] == 0
    {
      this.score, this.obj := score, obj;
      backward := null;
      forward := seq(level, _ => null);
      span := seq(level, _ => 0);
    }

    function Item(): Elem { Elem(score, obj) }
  }

  /** The mutable fields of a node. */
  datatype Row = Row(fwd: seq<Node?>, span: seq<nat>, back: Node?)

  ghost predicate Snapshot(all: seq<Node>, rows: seq<Row>)
    reads all
  {
    && |rows| == |all|
    && forall i :: 0 <= i < |all| ==> all[i].forward == rows[i].fwd && all[i].span == rows[i].span && all[i].backward == rows[i].back
  }

  ghost predicate Distinct(all: seq<Node>) {
    forall i, j :: 0 <= i < j < |all| ==> all[i] != all[j]
  }

  /** The elements after the header. */
  function Elems(all: seq<Node>): (es: seq<Elem>)
    requires |all| > 0
    ensures |es| == |all| - 1 && forall i :: 0 <= i < |es| ==> es[i] == all[i + 1].Item()
  {
    seq(|all| - 1, i requires 0 <= i < |all| - 1 => all[i + 1].Item())
  }

  function Target(all: seq<Node>, q: nat): Node? {
    if q < |all| then all[q] else null
  }

  /** The rank distance to the node at q, or to the end of the list. */
  function Dist(n: nat, i: nat, q: nat): nat
    requires i < q <= n
  {
    if q == n then n - 1 - i else q - i
  }

  /** Header levels that are not in use keep a stale span. */
  ghost predicate LinkOk(all: seq<Node>, h: seq<nat>, level: nat, i: nat, l: nat, f: Node?, s: nat)
    requires |all| == |h| && i < |h|
  {
    && f == Target(all, Next(h, i, l))
    && (l < level ==> s == Dist(|all|, i, Next(h, i, l)))
  }

  ghost predicate RowOk(all: seq<Node>, h: seq<nat>, level: nat, i: nat, row: Row)
    requires |all| == |h| && i < |h|
  {
    && |row.fwd| == |row.span| == h[i]
    && (forall l :: 0 <= l < h[i] ==> LinkOk(all, h, level, i, l, row.fwd[l], row.span[l]))
    && row.back == if i <= 1 then null else all[i - 1]
  }

  ghost predicate Linked(all: seq<Node>, h: seq<nat>, rows: seq<Row>, level: nat) {
    && |all| == |h| == |rows| && |all| > 0 && h[0] == MAXLEVEL
    && Bounded(h, level) && Distinct(all)
    && forall i :: 0 <= i < |all| ==> RowOk(all, h, level, i, rows[i])
  }

  ghost predicate Shape(all: seq<Node>, h: seq<nat>, rows: seq<Row>, level: nat) {
    Linked(all, h, rows, level) && TopLevel(h, level) && Sorted(Elems(all))
  }

  // --------------------------------------------------------------- insertion

  /** A link of an old node once x of height hx stands at p + 1. */
  lemma InsertLink(all: seq<Node>, h: seq<nat>, level: nat, p: nat, x: Node, hx: nat, i: nat, l: nat, f: Node?, s: nat,
                   f1: Node?, s1: nat)
    requires |all| == |h| && p < |h| && i < |h| && h[i] > l && h[0] > l && hx <= level
    requires LinkOk(all, h, level, i, l, f, s)
    requires f1 == if l < hx && i == Below(h, p, l) then x else f
    requires l < level ==> s1 == if i == Below(h, p, l) then (if l < hx then p - i + 1 else s + 1) else s
    ensures LinkOk(InsertAt(all, p + 1, x), InsertAt(h, p + 1, hx), level, if i <= p then i else i + 1, l, f1, s1)
  {
    hide Next, Below, InsertAt;
    BelowNext(h, p, l);
    NextInserted(h, p, hx, if i <= p then i else i + 1, l);
    if i <= p && Next(h, i, l) > p { BelowIs(h, p, l, i); }
  }

  /** A link of the new node. */
  lemma NewLink(all: seq<Node>, h: seq<nat>, level: nat, p: nat, x: Node, hx: nat, l: nat, f: Node?, s: nat)
    requires |all| == |h| && p < |h| && h[0] > l && l < hx <= level
    requires LinkOk(all, h, level, Below(h, p, l), l, f, s)
    ensures s >= p - Below(h, p, l)
    ensures LinkOk(InsertAt(all, p + 1, x), InsertAt(h, p + 1, hx), level, p + 1, l, f, s - (p - Below(h, p, l)))
  {
    hide Next, Below, InsertAt;
    BelowNext(h, p, l);
    NextInserted(h, p, hx, p + 1, l);
  }

  /** The rows of the old nodes when x has been spliced in below level m. */
  ghost predicate Spliced(h: seq<nat>, p: nat, x: Node, hx: nat, rows0: seq<Row>, rows: seq<Row>, m: nat)
    requires p < |h| && h[0] == MAXLEVEL && m <= MAXLEVEL
  {
    && |rows| == |rows0| == |h|
    && forall i :: 0 <= i < |h| ==> SplicedRow(h, p, x, hx, i, rows0[i], rows[i], m)
  }

  ghost predicate SplicedRow(h: seq<nat>, p: nat, x: Node, hx: nat, i: nat, r0: Row, r: Row, m: nat)
    requires p < |h| && h[0] == MAXLEVEL && m <= MAXLEVEL && i < |h|
  {
    && |r.fwd| == |r0.fwd| == |r.span| == |r0.span| == h[i] && r.back == r0.back
    && forall l :: 0 <= l < h[i] ==>
      && r.fwd[l] == (if l < m && l < hx && i == Below(h, p, l) then x else r0.fwd[l])
      && r.span[l] == if l < m && i == Below(h, p, l) then (if l < hx then p - i + 1 else r0.span[l] + 1) else r0.span[l]
  }

  /** The row of the new node, filled in below level m. */
  ghost predicate NewRow(h: seq<nat>, p: nat, rows0: seq<Row>, fwd: seq<Node?>, span: seq<nat>, m: nat)
    requires p < |h| == |rows0| && h[0] == MAXLEVEL && m <= MAXLEVEL
  {
    m <= |fwd| && m <= |span|
    && forall l :: 0 <= l < m ==>
      var b := Below(h, p, l);
      && |rows0[b].fwd| == |rows0[b].span| == h[b]
      && fwd[l] == rows0[b].fwd[l] && span[l] == rows0[b].span[l] - (p - b)
  }

  /** One level of zslInsert's splice. */
  lemma SpliceStep(h: seq<nat>, p: nat, x: Node, hx: nat, rows0: seq<Row>, rows: seq<Row>, m: nat, r: Row)
    requires p < |h| && h[0] == MAXLEVEL && m < MAXLEVEL && Spliced(h, p, x, hx, rows0, rows, m)
    requires var b := Below(h, p, m);
             var old0 := rows[b];
             r == Row(if m < hx then old0.fwd[m := x] else old0.fwd,
                      old0.span[m := if m < hx then p - b + 1 else old0.span[m] + 1], old0.back)
    ensures Spliced(h, p, x, hx, rows0, rows[Below(h, p, m) := r], m + 1)
  {
    hide Below;
    var b := Below(h, p, m);
    var next := rows[b := r];
    forall i | 0 <= i < |h|
      ensures SplicedRow(h, p, x, hx, i, rows0[i], next[i], m + 1)
    {
      assert SplicedRow(h, p, x, hx, i, rows0[i], rows[i], m);
    }
  }

  lemma SplicedRowOk(all: seq<Node>, h: seq<nat>, level: nat, p: nat, x: Node, hx: nat, i: nat, r0: Row, r: Row)
    requires p < |h| == |all| && i < |h| && h[0] == MAXLEVEL && hx <= level <= MAXLEVEL && Bounded(h, level)
    requires RowOk(all, h, level, i, r0) && SplicedRow(h, p, x, hx, i, r0, r, level)
    ensures forall l :: 0 <= l < h[i] ==>
      LinkOk(InsertAt(all, p + 1, x), InsertAt(h, p + 1, hx), level, if i <= p then i else i + 1, l, r.fwd[l], r.span[l])
  {
    hide Next, Below, InsertAt, LinkOk;
    forall l | 0 <= l < h[i]
      ensures LinkOk(InsertAt(all, p + 1, x), InsertAt(h, p + 1, hx), level, if i <= p then i else i + 1, l, r.fwd[l], r.span[l])
    {
      assert LinkOk(all, h, level, i, l, r0.fwd[l], r0.span[l]);
      InsertLink(all, h, level, p, x, hx, i, l, r0.fwd[l], r0.span[l], r.fwd[l], r.span[l]);
    }
  }

  lemma NewRowOk(all: seq<Node>, h: seq<nat>, rows0: seq<Row>, level: nat, p: nat, x: Node, hx: nat, r: Row)
    requires Linked(all, h, rows0, level) && p < |h| && hx <= level && |r.fwd| == |r.span| == hx
    requires NewRow(h, p, rows0, r.fwd, r.span, hx)
    requires r.back == if p == 0 then null else all[p]
    ensures RowOk(InsertAt(all, p + 1, x), InsertAt(h, p + 1, hx), level, p + 1, r)
  {
    hide Next, Below, LinkOk;
    forall l | 0 <= l < hx
      ensures LinkOk(InsertAt(all, p + 1, x), InsertAt(h, p + 1, hx), level, p + 1, l, r.fwd[l], r.span[l])
    {
      var b := Below(h, p, l);
      assert RowOk(all, h, level, b, rows0[b]);
      NewLink(all, h, level, p, x, hx, l, rows0[b].fwd[l], rows0[b].span[l]);
    }
  }

  /** After the splice and the new backward links the list is linked again. */
  lemma InsertLinked(all: seq<Node>, h: seq<nat>, rows0: seq<Row>, level: nat, p: nat, x: Node, hx: nat, rows: seq<Row>,
                     r: Row, all1: seq<Node>, h1: seq<nat>, rows1: seq<Row>)
    requires Linked(all, h, rows0, level) && p < |h| && 1 <= hx <= level && |r.fwd| == |r.span| == hx && x !in all
    requires Spliced(h, p, x, hx, rows0, rows, level) && NewRow(h, p, rows0, r.fwd, r.span, hx)
    requires r.back == if p == 0 then null else all[p]
    requires all1 == InsertAt(all, p + 1, x) && h1 == InsertAt(h, p + 1, hx)
    requires |rows1| == |all1| && rows1[p + 1] == r
    requires forall i :: 0 <= i <= p ==> rows1[i] == rows[i]
    requires forall i :: p + 2 <= i < |all1| ==> rows1[i] == rows[i - 1].(back := if i == p + 2 then x else rows[i - 1].back)
    ensures Linked(all1, h1, rows1, level)
  {
    hide Next, Below, LinkOk, InsertAt;
    forall i | 0 <= i < |all1|
      ensures RowOk(all1, h1, level, i, rows1[i])
    {
      if i == p + 1 {
        NewRowOk(all, h, rows0, level, p, x, hx, r);
      } else {
        var j := if i <= p then i else i - 1;
        assert RowOk(all, h, level, j, rows0[j]) && SplicedRow(h, p, x, hx, j, rows0[j], rows[j], level);
        SplicedRowOk(all, h, level, p, x, hx, j, rows0[j], rows[j]);
      }
    }
    InsertDistinct(all, p + 1, x);
  }

  lemma InsertDistinct(all: seq<Node>, k: nat, x: Node)
    requires Distinct(all) && x !in all && k <= |all|
    ensures Distinct(InsertAt(all, k, x))
  {
    hide InsertAt;
  }

  /** A header level taken into use: nothing on it yet. */
  lemma RaiseLevel(all: seq<Node>, h: seq<nat>, rows: seq<Row>, level: nat)
    requires Linked(all, h, rows, level) && level < MAXLEVEL
    ensures Linked(all, h, rows[0 := rows[0].(span := rows[0].span[level := |all| - 1])], level + 1)
  {
    hide Next;
    assert Next(h, 0, level) == |h|;
    assert RowOk(all, h, level, 0, rows[0]);
    var rows1 := rows[0 := rows[0].(span := rows[0].span[level := |all| - 1])];
    forall i | 0 <= i < |all|
      ensures RowOk(all, h, level + 1, i, rows1[i])
    {
      assert RowOk(all, h, level, i, rows[i]);
    }
  }

  // ---------------------------------------------------------------- deletion

  lemma DeleteLinkAfter(all: seq<Node>, h: seq<nat>, level: nat, p: nat, x: Node, hx: nat, i: nat, l: nat, f: Node?, s: nat,
                   fx: Node?, sx: nat, f1: Node?, s1: int)
    requires |all| == |h| && p < |h| && i < |h| && h[i] > l && h[0] > l && i > p
    requires Distinct(InsertAt(all, p + 1, x))
    requires LinkOk(InsertAt(all, p + 1, x), InsertAt(h, p + 1, hx), level, i + 1, l, f, s)
    requires l < hx ==> LinkOk(InsertAt(all, p + 1, x), InsertAt(h, p + 1, hx), level, p + 1, l, fx, sx)
    requires f1 == if i == Below(h, p, l) && f == x then fx else f
    requires l < level ==> s1 == if i == Below(h, p, l) then (if f == x then s + sx - 1 else s - 1) else s
    ensures l < level ==> s1 >= 0
    ensures LinkOk(all, h, level, i, l, f1, if l < level then s1 else 0)
  {
    hide Next, Below, InsertAt;
    BelowNext(h, p, l);
    NextInserted(h, p, hx, i + 1, l);
  }

  /** A link of a remaining node once x at p + 1 is gone. */
  lemma DeleteLink(all: seq<Node>, h: seq<nat>, level: nat, p: nat, x: Node, hx: nat, i: nat, l: nat, f: Node?, s: nat,
                   fx: Node?, sx: nat, f1: Node?, s1: int)
    requires |all| == |h| && p < |h| && i < |h| && h[i] > l && h[0] > l
    requires Distinct(InsertAt(all, p + 1, x))
    requires LinkOk(InsertAt(all, p + 1, x), InsertAt(h, p + 1, hx), level, if i <= p then i else i + 1, l, f, s)
    requires l < hx ==> LinkOk(InsertAt(all, p + 1, x), InsertAt(h, p + 1, hx), level, p + 1, l, fx, sx)
    requires f1 == if i == Below(h, p, l) && f == x then fx else f
    requires l < level ==> s1 == if i == Below(h, p, l) then (if f == x then s + sx - 1 else s - 1) else s
    ensures l < level ==> s1 >= 0
    ensures LinkOk(all, h, level, i, l, f1, if l < level then s1 else 0)
  {
    hide Next, Below, InsertAt;
    if i > p {
      DeleteLinkAfter(all, h, level, p, x, hx, i, l, f, s, fx, sx, f1, s1);
    } else {
      BelowNext(h, p, l);
      NextInserted(h, p, hx, i, l);
      NextInserted(h, p, hx, p + 1, l);
      if Next(h, i, l) > p { BelowIs(h, p, l, i); }
    }
  }

  /** The rows when x has been unhooked below level m (x itself still listed). */
  ghost predicate Cut(h: seq<nat>, p: nat, x: Node, rx: Row, rows0: seq<Row>, rows: seq<Row>, m: nat)
    requires p < |h| && h[0] == MAXLEVEL && m <= MAXLEVEL
  {
    && |rows| == |rows0| == |h|
    && forall i :: 0 <= i < |h| ==> CutRow(h, p, x, rx, i, rows0[i], rows[i], m)
  }

  ghost predicate CutRow(h: seq<nat>, p: nat, x: Node, rx: Row, i: nat, r0: Row, r: Row, m: nat)
    requires p < |h| && h[0] == MAXLEVEL && m <= MAXLEVEL && i < |h|
  {
    && |r.fwd| == |r0.fwd| == |r.span| == |r0.span| == h[i] && r.back == r0.back
    && forall l :: 0 <= l < h[i] ==>
      if l < m && i == Below(h, p, l) then CutLink(x, rx, l, r0.fwd[l], r0.span[l], r.fwd[l], r.span[l])
      else r.fwd[l] == r0.fwd[l] && r.span[l] == r0.span[l]
  }

  ghost predicate CutLink(x: Node, rx: Row, l: nat, f0: Node?, s0: nat, f: Node?, s: nat) {
    if f0 == x then l < |rx.fwd| && l < |rx.span| && f == rx.fwd[l] && s == s0 + rx.span[l] - 1
    else f == f0 && s == s0 - 1
  }

  /** One level of zslDeleteNode. */
  lemma CutStep(h: seq<nat>, p: nat, x: Node, rx: Row, rows0: seq<Row>, rows: seq<Row>, m: nat, r: Row)
    requires p < |h| && h[0] == MAXLEVEL && m < MAXLEVEL && Cut(h, p, x, rx, rows0, rows, m)
    requires var old0 := rows[Below(h, p, m)];
             && |r.fwd| == |old0.fwd| && |r.span| == |old0.span| && r.back == old0.back
             && CutLink(x, rx, m, old0.fwd[m], old0.span[m], r.fwd[m], r.span[m])
             && forall l :: 0 <= l < |r.fwd| && l != m ==> r.fwd[l] == old0.fwd[l] && r.span[l] == old0.span[l]
    ensures Cut(h, p, x, rx, rows0, rows[Below(h, p, m) := r], m + 1)
  {
    hide Below, CutLink;
    var b := Below(h, p, m);
    var next := rows[b := r];
    forall i | 0 <= i < |h|
      ensures CutRow(h, p, x, rx, i, rows0[i], next[i], m + 1)
    {
      assert CutRow(h, p, x, rx, i, rows0[i], rows[i], m);
    }
  }

  /** Levels of the header that are not in use are cut off as well. */
  lemma CutLinkOk(all: seq<Node>, h: seq<nat>, level: nat, p: nat, x: Node, hx: nat, rx: Row, i: nat, l: nat,
                  f0: Node?, s0: nat, f: Node?, s: nat)
    requires |all| == |h| && p < |h| && i < |h| && h[i] > l && h[0] > l && hx <= level
    requires Distinct(InsertAt(all, p + 1, x)) && |rx.fwd| == |rx.span| == hx
    requires LinkOk(InsertAt(all, p + 1, x), InsertAt(h, p + 1, hx), level, if i <= p then i else i + 1, l, f0, s0)
    requires l < hx ==> LinkOk(InsertAt(all, p + 1, x), InsertAt(h, p + 1, hx), level, p + 1, l, rx.fwd[l], rx.span[l])
    requires if l < level && i == Below(h, p, l) then CutLink(x, rx, l, f0, s0, f, s) else f == f0 && s == s0
    ensures LinkOk(all, h, level, i, l, f, s)
  {
    hide Next, Below, InsertAt, Target, Dist;
    if l < level {
      CutTarget(all, h, level, p, x, hx, i, l, f0, s0);
      DeleteLink(all, h, level, p, x, hx, i, l, f0, s0, if l < hx then rx.fwd[l] else null, if l < hx then rx.span[l] else 0, f, s);
    } else {
      StaleLink(all, h, level, p, x, hx, i, l, f0, s0);
    }
  }

  lemma CutTarget(all: seq<Node>, h: seq<nat>, level: nat, p: nat, x: Node, hx: nat, i: nat, l: nat, f: Node?, s: nat)
    requires |all| == |h| && p < |h| && i < |h| && h[i] > l && h[0] > l
    requires Distinct(InsertAt(all, p + 1, x))
    requires LinkOk(InsertAt(all, p + 1, x), InsertAt(h, p + 1, hx), level, if i <= p then i else i + 1, l, f, s)
    ensures i == Below(h, p, l) ==> (f == x <==> l < hx)
    ensures f == x ==> l < hx
  {
    hide Next, Below, InsertAt;
    BelowNext(h, p, l);
    NextInserted(h, p, hx, if i <= p then i else i + 1, l);
  }

  lemma StaleLink(all: seq<Node>, h: seq<nat>, level: nat, p: nat, x: Node, hx: nat, i: nat, l: nat, f: Node?, s: nat)
    requires |all| == |h| && p < |h| && i < |h| && h[i] > l && hx <= level <= l
    requires LinkOk(InsertAt(all, p + 1, x), InsertAt(h, p + 1, hx), level, if i <= p then i else i + 1, l, f, s)
    ensures LinkOk(all, h, level, i, l, f, s)
  {
    hide Next, Below, InsertAt;
    NextInserted(h, p, hx, if i <= p then i else i + 1, l);
  }

  lemma PutBack<T>(s: seq<T>, k: nat)
    requires k < |s|
    ensures InsertAt(s[..k] + s[k + 1..], k, s[k]) == s
  {}

  /** After the cut and the new backward link the rest is linked. */
  lemma DeleteLinked(all: seq<Node>, h: seq<nat>, rows0: seq<Row>, level: nat, p: nat, x: Node, rows: seq<Row>,
                     all0: seq<Node>, h0: seq<nat>, rows1: seq<Row>)
    requires Linked(all, h, rows0, level) && p + 1 < |h| && all[p + 1] == x
    requires Cut(h, p, x, rows0[p + 1], rows0, rows, level)
    requires all0 == all[..p + 1] + all[p + 2..] && h0 == h[..p + 1] + h[p + 2..]
    requires |rows1| == |all0|
    requires forall i :: 0 <= i <= p ==> rows1[i] == rows[i]
    requires forall i :: p + 1 <= i < |all0| ==>
               rows1[i] == rows[i + 1].(back := if i == p + 1 then rows0[p + 1].back else rows[i + 1].back)
    ensures Linked(all0, h0, rows1, level)
  {
    hide Next, Below, LinkOk, InsertAt, CutLink;
    PutBack(all, p + 1);
    PutBack(h, p + 1);
    assert RowOk(all, h, level, p + 1, rows0[p + 1]);
    forall i | 0 <= i < |all0|
      ensures RowOk(all0, h0, level, i, rows1[i])
    {
      var j := if i <= p then i else i + 1;
      assert RowOk(all, h, level, j, rows0[j]) && CutRow(h, p, x, rows0[p + 1], j, rows0[j], rows[j], level);
      CutRowOk(all0, h0, level, p, x, h[p + 1], rows0[p + 1], i, rows0[j], rows[j]);
    }
  }

  lemma CutRowOk(all: seq<Node>, h: seq<nat>, level: nat, p: nat, x: Node, hx: nat, rx: Row, i: nat, r0: Row, r: Row)
    requires p < |h| == |all| && i < |h| && h[0] == MAXLEVEL && hx <= level <= MAXLEVEL && Bounded(h, level)
    requires Distinct(InsertAt(all, p + 1, x)) && RowOk(InsertAt(all, p + 1, x), InsertAt(h, p + 1, hx), level, p + 1, rx)
    requires var j := if i <= p then i else i + 1;
             && RowOk(InsertAt(all, p + 1, x), InsertAt(h, p + 1, hx), level, j, r0)
             && CutRow(InsertAt(h, p + 1, hx), p, x, rx, j, r0, r, level)
    ensures |r.fwd| == |r.span| == h[i] && r.back == r0.back
    ensures forall l :: 0 <= l < h[i] ==> LinkOk(all, h, level, i, l, r.fwd[l], r.span[l])
  {
    hide Next, Below, InsertAt, LinkOk, CutLink;
    var g, j := InsertAt(h, p + 1, hx), if i <= p then i else i + 1;
    forall l | 0 <= l < h[i]
      ensures LinkOk(all, h, level, i, l, r.fwd[l], r.span[l])
    {
      SameBelow(h, g, p, l);
      assert LinkOk(InsertAt(all, p + 1, x), g, level, j, l, r0.fwd[l], r0.span[l]);
      CutLinkOk(all, h, level, p, x, hx, rx, i, l, r0.fwd[l], r0.span[l], r.fwd[l], r.span[l]);
    }
  }

  lemma {:induction false} SameBelow(h: seq<nat>, g: seq<nat>, p: nat, l: nat)
    requires p < |h| && p < |g| && h[0] > l && forall i :: 0 <= i <= p ==> h[i] == g[i]
    ensures Below(h, p, l) == Below(g, p, l)
  {
    if h[p] <= l { SameBelow(h, g, p - 1, l); }
  }

  /** An empty top level of the header can be dropped. */
  lemma LowerLevel(all: seq<Node>, h: seq<nat>, rows: seq<Row>, level: nat)
    requires Linked(all, h, rows, level)
    ensures rows[0].fwd != [] && level <= |rows[0].fwd|
    ensures level > 1 && rows[0].fwd[level - 1] == null ==> Linked(all, h, rows, level - 1)
    ensures rows[0].fwd[level - 1] != null ==> TopLevel(h, level)
  {
    hide Next;
    assert RowOk(all, h, level, 0, rows[0]);
    assert LinkOk(all, h, level, 0, level - 1, rows[0].fwd[level - 1], rows[0].span[level - 1]);
    if level > 1 && rows[0].fwd[level - 1] == null {
      assert Next(h, 0, level - 1) == |h|;
      forall i | 0 <= i < |all|
        ensures RowOk(all, h, level - 1, i, rows[i])
      {
        assert RowOk(all, h, level, i, rows[i]);
      }
    }
  }
}
