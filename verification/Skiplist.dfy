// The skiplist of sorted sets (t_zset.c).
module Skiplist {
  import opened Bytes
  import opened Sequences
  import opened SkiplistShape
  import opened SkiplistLinks

  /** One level of one node rewritten; rows follows the heap. */
  method Relink(n: Node, l: nat, f: Node?, s: nat, ghost all: seq<Node>, ghost rows: seq<Row>, ghost k: nat)
    returns (ghost next: seq<Row>)
    requires Snapshot(all, rows) && Distinct(all) && k < |all| && n == all[k] && l < |n.forward| && l < |n.span|
    modifies n`forward, n`span
    ensures next == rows[k := Row(rows[k].fwd[l := f], rows[k].span[l := s], rows[k].back)] && Snapshot(all, next)
  {
    n.forward := n.forward[l := f];
    n.span := n.span[l := s];
    next := rows[k := Row(rows[k].fwd[l := f], rows[k].span[l := s], rows[k].back)];
  }

  method SetBackward(n: Node, b: Node?, ghost all: seq<Node>, ghost rows: seq<Row>, ghost k: nat)
    returns (ghost next: seq<Row>)
    requires Snapshot(all, rows) && Distinct(all) && k < |all| && n == all[k]
    modifies n`backward
    ensures next == rows[k := rows[k].(back := b)] && Snapshot(all, next)
  {
    n.backward := b;
    next := rows[k := rows[k].(back := b)];
  }

  /** update and rank as the search leaves them for position p. */
  ghost predicate Path(all: seq<Node>, h: seq<nat>, p: nat, update: seq<Node>, rank: seq<nat>, level: nat)
    requires p < |h| == |all| && h[0] == MAXLEVEL
  {
    && |update| == |rank| == level <= MAXLEVEL
    && forall l :: 0 <= l < level ==> rank[l] == Below(h, p, l) && update[l] == all[Below(h, p, l)]
  }

  /** zslInsert takes header levels into use up to lv. */
  method RaiseTo(header: Node, length: nat, level0: nat, lv: nat, update0: seq<Node>, rank0: seq<nat>, ghost all: seq<Node>,
                 ghost h: seq<nat>, ghost rows0: seq<Row>, ghost p: nat)
    returns (level: nat, update: seq<Node>, rank: seq<nat>, ghost rows: seq<Row>)
    requires Linked(all, h, rows0, level0) && Snapshot(all, rows0) && header == all[0] && length == |all| - 1
    requires p < |h| && Path(all, h, p, update0, rank0, level0) && lv <= MAXLEVEL
    modifies header
    ensures level == if lv > level0 then lv else level0
    ensures Linked(all, h, rows, level) && Snapshot(all, rows) && Path(all, h, p, update, rank, level)
  {
    hide RowOk, Bounded, Below;
    level, update, rank, rows := level0, update0, rank0, rows0;
    while level < lv
      invariant level0 <= level && (level <= lv || level == level0)
      invariant Linked(all, h, rows, level) && Snapshot(all, rows) && Path(all, h, p, update, rank, level)
    {
      BelowTop(h, p, level);
      HeaderLevels(all, h, rows, level);
      RaiseLevel(all, h, rows, level);
      update, rank := update + [header], rank + [0];
      rows := SetSpan(header, level, length, all, rows, 0);
      level := level + 1;
    }
  }

  method SetSpan(n: Node, l: nat, s: nat, ghost all: seq<Node>, ghost rows: seq<Row>, ghost k: nat)
    returns (ghost next: seq<Row>)
    requires Snapshot(all, rows) && Distinct(all) && k < |all| && n == all[k] && l < |n.span|
    modifies n`span
    ensures next == rows[k := rows[k].(span := rows[k].span[l := s])] && Snapshot(all, next)
  {
    n.span := n.span[l := s];
    next := rows[k := rows[k].(span := rows[k].span[l := s])];
  }

  /** zslInsert hooks x in after u on level i; d ranks lie between them. */
  method HookLevel(x: Node, u: Node, i: nat, d: nat, ghost lv: nat, ghost level: nat, ghost all: seq<Node>, ghost h: seq<nat>,
                   ghost rows0: seq<Row>, ghost rows: seq<Row>, ghost p: nat)
    returns (ghost next: seq<Row>)
    requires Linked(all, h, rows0, level) && Snapshot(all, rows) && p < |h| && h[0] == MAXLEVEL && Distinct(all)
    requires i < lv <= level <= MAXLEVEL && |x.forward| == |x.span| == lv && x !in all
    requires u == all[Below(h, p, i)] && d == p - Below(h, p, i)
    requires Spliced(h, p, x, lv, rows0, rows, i) && NewRow(h, p, rows0, x.forward, x.span, i)
    modifies u`forward, u`span, x`forward, x`span
    ensures Snapshot(all, next) && Spliced(h, p, x, lv, rows0, next, i + 1)
    ensures |x.forward| == |x.span| == lv && NewRow(h, p, rows0, x.forward, x.span, i + 1)
  {
    hide RowOk, Bounded, Below, Linked, SplicedRow;
    ghost var b := Below(h, p, i);
    SpliceFacts(all, h, rows0, level, p, x, lv, rows, i);
    x.forward := x.forward[i := u.forward[i]];
    x.span := x.span[i := u.span[i] - d];
    SpliceStep(h, p, x, lv, rows0, rows, i, Row(rows[b].fwd[i := x], rows[b].span[i := d + 1], rows[b].back));
    hide Spliced;
    next := Relink(u, i, x, d + 1, all, rows, b);
  }

  /** x is too low for level i: the link over it gets one rank longer. */
  method CountLevel(ghost x: Node, u: Node, i: nat, ghost lv: nat, ghost level: nat, ghost all: seq<Node>, ghost h: seq<nat>,
                    ghost rows0: seq<Row>, ghost rows: seq<Row>, ghost p: nat)
    returns (ghost next: seq<Row>)
    requires Linked(all, h, rows0, level) && Snapshot(all, rows) && p < |h| && h[0] == MAXLEVEL && Distinct(all)
    requires lv <= i < level <= MAXLEVEL && u == all[Below(h, p, i)] && Spliced(h, p, x, lv, rows0, rows, i)
    modifies u`span
    ensures Snapshot(all, next) && Spliced(h, p, x, lv, rows0, next, i + 1)
  {
    hide RowOk, Bounded, Below, Linked, SplicedRow;
    ghost var b := Below(h, p, i);
    SpliceFacts(all, h, rows0, level, p, x, lv, rows, i);
    SpliceStep(h, p, x, lv, rows0, rows, i, rows[b].(span := rows[b].span[i := rows[b].span[i] + 1]));
    hide Spliced;
    next := SetSpan(u, i, u.span[i] + 1, all, rows, b);
  }

  /** The two splice loops of zslInsert. */
  method HookIn(x: Node, level: nat, lv: nat, update: seq<Node>, rank: seq<nat>, ghost all: seq<Node>, ghost h: seq<nat>,
                ghost rows0: seq<Row>, ghost p: nat)
    returns (ghost rows: seq<Row>)
    requires Linked(all, h, rows0, level) && Snapshot(all, rows0) && p < |h| && Path(all, h, p, update, rank, level)
    requires 1 <= lv <= level && |x.forward| == |x.span| == lv && x !in all
    modifies all, x
    ensures Snapshot(all, rows) && Spliced(h, p, x, lv, rows0, rows, level)
    ensures |x.forward| == |x.span| == lv && NewRow(h, p, rows0, x.forward, x.span, lv) && x.backward == old(x.backward)
  {
    hide Below, Linked, SplicedRow, Spliced, NewRow, Snapshot, Distinct;
    rows := rows0;
    SpliceStart(all, h, rows0, level, p, x, lv);
    var i := 0;
    NewRowStart(h, p, rows0, x.forward, x.span);
    while i < lv
      invariant i <= lv && Snapshot(all, rows) && Spliced(h, p, x, lv, rows0, rows, i)
      invariant |x.forward| == |x.span| == lv && x.backward == old(x.backward)
      invariant NewRow(h, p, rows0, x.forward, x.span, i)
    {
      assert update[i] == all[Below(h, p, i)] && update[i] in all;
      rows := HookLevel(x, update[i], i, rank[0] - rank[i], lv, level, all, h, rows0, rows, p);
      i := i + 1;
    }
    while i < level
      invariant lv <= i <= level && Snapshot(all, rows) && Spliced(h, p, x, lv, rows0, rows, i)
      invariant |x.forward| == |x.span| == lv && x.backward == old(x.backward)
      invariant NewRow(h, p, rows0, x.forward, x.span, lv)
    {
      assert update[i] == all[Below(h, p, i)] && update[i] in all;
      rows := CountLevel(x, update[i], i, lv, level, all, h, rows0, rows, p);
      i := i + 1;
    }
  }

  lemma NewRowStart(h: seq<nat>, p: nat, rows0: seq<Row>, fwd: seq<Node?>, span: seq<nat>)
    requires p < |h| == |rows0| && h[0] == MAXLEVEL
    ensures NewRow(h, p, rows0, fwd, span, 0)
  {}

  lemma SpliceStart(all: seq<Node>, h: seq<nat>, rows0: seq<Row>, level: nat, p: nat, x: Node, hx: nat)
    requires Linked(all, h, rows0, level) && p < |h|
    ensures |all| == |h| == |rows0| && h[0] == MAXLEVEL && level <= MAXLEVEL && Distinct(all)
    ensures Spliced(h, p, x, hx, rows0, rows0, 0)
    ensures Below(h, p, 0) == p
  {
    hide Below;
    forall i | 0 <= i < |h|
      ensures SplicedRow(h, p, x, hx, i, rows0[i], rows0[i], 0)
    {
      assert RowOk(all, h, level, i, rows0[i]);
    }
    assert h[p] > 0;
  }

  /** What the node at update[i] holds when level i is about to be spliced. */
  lemma SpliceFacts(all: seq<Node>, h: seq<nat>, rows0: seq<Row>, level: nat, p: nat, x: Node, hx: nat, rows: seq<Row>, i: nat)
    requires Linked(all, h, rows0, level) && p < |h| && h[0] == MAXLEVEL && i < level <= MAXLEVEL
    requires Spliced(h, p, x, hx, rows0, rows, i) && hx <= level
    ensures var b := Below(h, p, i);
            && b <= p && |rows[b].fwd| == |rows[b].span| == |rows0[b].fwd| == |rows0[b].span| == h[b] > i
            && rows[b].fwd[i] == rows0[b].fwd[i] && rows[b].span[i] == rows0[b].span[i]
            && (i < hx ==> rows[b].span[i] >= p - b)
  {
    hide Below, LinkOk;
    var b := Below(h, p, i);
    assert RowOk(all, h, level, b, rows0[b]) && SplicedRow(h, p, x, hx, b, rows0[b], rows[b], i);
    if i < hx { NewLink(all, h, level, p, x, hx, i, rows0[b].fwd[i], rows0[b].span[i]); }
  }

  lemma BelowTop(h: seq<nat>, p: nat, l: nat)
    requires p < |h| && h[0] > l && Bounded(h, l)
    ensures Below(h, p, l) == 0
  {}

  lemma HeaderLevels(all: seq<Node>, h: seq<nat>, rows: seq<Row>, level: nat)
    requires Linked(all, h, rows, level)
    ensures |rows[0].fwd| == |rows[0].span| == MAXLEVEL && 1 <= level <= MAXLEVEL
  {
    assert RowOk(all, h, level, 0, rows[0]);
  }

  class Skiplist {
    var header: Node
    var tail: Node?
    var length: nat
    var level: nat
    ghost var all: seq<Node>
    ghost var h: seq<nat>
    ghost var rows: seq<Row>

    ghost predicate Valid()
      reads this, all
    {
      && Shape(all, h, rows, level) && Snapshot(all, rows)
      && header == all[0] && length == |all| - 1
      && tail == if |all| == 1 then null else all[|all| - 1]
    }

    ghost function Contents(): seq<Elem>
      reads this
    {
      if |all| > 0 then Elems(all) else []
    }

    /** zslCreate. */
    constructor ()
      ensures Valid() && fresh(all) && Contents() == []
    {
      header := new Node(MAXLEVEL, 0, []);
      tail, length, level := null, 0, 1;
      new;
      all, h, rows := [header], [MAXLEVEL], [Row(header.forward, header.span, null)];
    }

    /** Forward on level i while the next node is before e. */
    method Walk(x0: Node, r0: nat, i: nat, e: Elem, ghost p: nat) returns (x: Node, r: nat)
      requires Valid() && p == Position(Contents(), e) && r0 <= p < |h| && x0 == all[r0] && h[r0] > i && i < level
      ensures r == Below(h, p, i) && x == all[r]
    {
      hide Less, Below, Next, Position, Sorted, Elems, Distinct, RowOk, TopLevel, Bounded;
      LevelBound(h, level);
      x, r := x0, r0;
      RowLink(all, h, rows, level, r, i);
      while x.forward[i] != null && Less(x.forward[i].Item(), e)
        invariant r <= p && x == all[r] && h[r] > i && |x.forward| > i && |x.span| > i
        invariant LinkOk(all, h, level, r, i, x.forward[i], x.span[i])
        decreases |all| - r
      {
        ForwardLess(all, h, r, i, e, p);
        r := r + x.span[i];
        x := x.forward[i];
        RowLink(all, h, rows, level, r, i);
      }
      PathEnd(all, h, r, i, e, p, x.forward[i]);
    }

    /** The search of zslInsert and zslDelete: the rightmost node before e on
        every level, and its rank. */
    method FindPath(e: Elem) returns (update: seq<Node>, rank: seq<nat>, ghost p: nat)
      requires Valid()
      ensures p == Position(Contents(), e) && p < |h| && |update| == |rank| == level
      ensures Path(all, h, p, update, rank, level)
    {
      hide Less, Below, Next, Position, RowOk, Sorted, Elems, Distinct, Snapshot;
      p := Position(Contents(), e);
      var x, i := header, level;
      var r: nat := 0;
      update, rank := [], [];
      while i > 0
        invariant 0 <= i <= level && r <= p < |h| && x == all[r] && h[r] >= i
        invariant |update| == |rank| == level - i
        invariant forall l :: i <= l < level ==> rank[l - i] == Below(h, p, l) && update[l - i] == all[Below(h, p, l)]
      {
        i := i - 1;
        x, r := Walk(x, r, i, e, p);
        update, rank := [x] + update, [r] + rank;
      }
    }

    /** zslInsert; lv is the random level of the new node. */
    method Insert(score: Score, obj: bytes, lv: nat) returns (x: Node)
      requires Valid() && Elem(score, obj) !in Contents() && 1 <= lv <= MAXLEVEL
      modifies this, all
      ensures Valid() && fresh(x) && x.Item() == Elem(score, obj) && Contents() == Inserted(old(Contents()), x.Item())
      ensures all == InsertAt(old(all), Position(old(Contents()), x.Item()) + 1, x)
      ensures h == InsertAt(old(h), Position(old(Contents()), x.Item()) + 1, lv)
    {
      hide Shape, Snapshot, Path, Position, Inserted, InsertAt, Elems;
      var e := Elem(score, obj);
      ShapeSizes(all, h, rows, level);
      var update, rank, p := FindPath(e);
      InsertedSize(Contents(), e);
      ghost var rows1;
      level, x, rows1 := Place(header, length, level, lv, e, update, rank, all, h, rows, p);
      InsertEnds(all, p, x);
      if x.forward[0] == null { tail := x; }
      length := length + 1;
      all, h, rows := InsertAt(all, p + 1, x), InsertAt(h, p + 1, lv), rows1;
    }

    /** zslDeleteNode: x stands right after position p, update is its path. */
    method DeleteNode(x: Node, update: seq<Node>, ghost rank: seq<nat>, ghost p: nat)
      requires Valid() && p + 1 < |all| && x == all[p + 1] && Path(all, h, p, update, rank, level)
      modifies this, all
      ensures Valid() && all == RemoveAt(old(all), p + 1) && h == RemoveAt(old(h), p + 1)
      ensures Contents() == RemoveAt(old(Contents()), p)
    {
      hide Shape, Snapshot, Path, RemoveAt, Elems;
      ShapeSizes(all, h, rows, level);
      RemoveEnds(all, p);
      ghost var rows1;
      var last;
      level, last, rows1 := Unplace(header, x, level, update, rank, all, h, rows, p);
      if last { tail := x.backward; }
      length := length - 1;
      all, h, rows := RemoveAt(all, p + 1), RemoveAt(h, p + 1), rows1;
    }

    /** zslDelete. */
    method Delete(score: Score, obj: bytes) returns (found: bool)
      requires Valid()
      modifies this, all
      ensures Valid() && (found <==> Elem(score, obj) in old(Contents()))
      ensures Contents() == Removed(old(Contents()), Elem(score, obj))
      ensures forall n :: n in all ==> n in old(all)
    {
      hide Linked, Snapshot, Path, Position, Sorted, Less, Elems, RemoveAt, TopLevel;
      var e := Elem(score, obj);
      var update, rank, p := FindPath(e);
      PathNext(all, h, rows, level, p, update, rank);
      AtPosition(all, p, e);
      var x := NextOf(update[0], all, rows, p);
      if x != null && score == x.score && obj == x.obj {
        DeleteNode(x, update, rank, p);
        RemoveMembers(old(all), p + 1);
        return true;
      }
      return false;
    }

    /** zslIsInRange: false only when nothing is in the range. */
    method IsInRange(r: Range) returns (some: bool)
      requires Valid()
      ensures !some ==> NoneIn(Contents(), r)
      ensures some ==> Contents() != [] && GteMin(Contents()[|Contents()| - 1].score, r) && LteMax(Contents()[0].score, r)
    {
      hide Sorted, NoneIn, GteMin, LteMax, RowOk, TopLevel, Bounded, Distinct, Less, Next, Snapshot;
      EarlyTest(Contents(), r);
      if r.min > r.max || (r.min == r.max && (r.minex || r.maxex)) { return false; }
      if tail == null {
        NothingIn(r);
        return false;
      }
      if !GteMin(tail.score, r) { return false; }
      PassedNext(all, h, rows, level, 0);
      var x := NextOf(header, all, rows, 0);
      if x == null || !LteMax(x.score, r) { return false; }
      return true;
    }

    /** Forward on level i while the next node is passed. */
    method WalkRange(x0: Node, ghost k0: nat, i: nat, r: Range, toLast: bool, ghost p: nat) returns (x: Node, ghost k: nat)
      requires Valid() && Passed(Contents(), r, toLast, p) && k0 <= p < |h| && x0 == all[k0] && h[k0] > i && i < level
      ensures k == Below(h, p, i) && x == all[k]
    {
      hide Less, Below, Next, Passes, Sorted, Elems, Distinct, RowOk, TopLevel, Bounded, Passed;
      LevelBound(h, level);
      x, k := x0, k0;
      RowLink(all, h, rows, level, k, i);
      while x.forward[i] != null && Passes(x.forward[i].score, r, toLast)
        invariant k <= p && x == all[k] && h[k] > i && |x.forward| > i && |x.span| > i
        invariant LinkOk(all, h, level, k, i, x.forward[i], x.span[i])
        decreases |all| - k
      {
        ForwardPassed(all, h, k, i, r, toLast, p);
        k := Next(h, k, i);
        x := x.forward[i];
        RowLink(all, h, rows, level, k, i);
      }
      RangeEnd(all, h, k, i, r, toLast, p, x.forward[i]);
    }

    /** The level loop of zslFirstInRange and zslLastInRange. */
    method Descend(r: Range, toLast: bool, ghost p: nat) returns (x: Node)
      requires Valid() && Passed(Contents(), r, toLast, p) && p < |h|
      ensures x == all[p]
    {
      hide Less, Below, Next, RowOk, Sorted, Elems, Distinct, Snapshot, Passed;
      x := header;
      var i := level;
      ghost var k: nat := 0;
      while i > 0
        invariant 0 <= i <= level && k <= p && x == all[k] && h[k] >= i
        invariant i == 0 ==> k == p
      {
        i := i - 1;
        x, k := WalkRange(x, k, i, r, toLast, p);
        assert h[p] > 0;
      }
    }

    /** zslFirstInRange finds what a linear search finds. */
    method FirstInRange(r: Range) returns (x: Node?, ghost k: int)
      requires Valid()
      ensures x == null <==> NoneIn(Contents(), r)
      ensures x != null ==> IsFirst(Contents(), r, k) && x == all[k + 1]
      ensures x == null <==> forall i :: 0 <= i < |Contents()| ==> var v := Contents()[i].score;
                !(r.min <= v <= r.max && (v == r.min ==> !r.minex) && (v == r.max ==> !r.maxex))
      ensures x != null ==>
        && 0 <= k < |Contents()| && x.score == Contents()[k].score
        && r.min <= x.score <= r.max && (x.score == r.min ==> !r.minex) && (x.score == r.max ==> !r.maxex)
        && forall i :: 0 <= i < k ==> var v := Contents()[i].score;
             !(r.min <= v <= r.max && (v == r.min ==> !r.minex) && (v == r.max ==> !r.maxex))
    {
      RangeMeans(Contents(), r);
      hide InRange, Passes, Below, Elems, Sorted, NoneIn, IsFirst, RowOk, TopLevel, Bounded, Distinct, Less, Next, Snapshot, GteMin, LteMax, Passed;
      var some := IsInRange(r);
      if !some { return null, 0; }
      ghost var p := PassedExists(Contents(), r, false);
      FirstCandidate(Contents(), r, p);
      var y := Descend(r, false, p);
      PassedNext(all, h, rows, level, p);
      x := NextOf(y, all, rows, p);
      if !LteMax(x.score, r) { return null, 0; }
      FirstOrNone(Contents(), r, p);
      k := p;
    }

    /** zslLastInRange. */
    method LastInRange(r: Range) returns (x: Node?, ghost k: int)
      requires Valid()
      ensures x == null <==> NoneIn(Contents(), r)
      ensures x != null ==> IsLast(Contents(), r, k) && x == all[k + 1]
      ensures x == null <==> forall i :: 0 <= i < |Contents()| ==> var v := Contents()[i].score;
                !(r.min <= v <= r.max && (v == r.min ==> !r.minex) && (v == r.max ==> !r.maxex))
      ensures x != null ==>
        && 0 <= k < |Contents()| && x.score == Contents()[k].score
        && r.min <= x.score <= r.max && (x.score == r.min ==> !r.minex) && (x.score == r.max ==> !r.maxex)
        && forall i :: k < i < |Contents()| ==> var v := Contents()[i].score;
             !(r.min <= v <= r.max && (v == r.min ==> !r.minex) && (v == r.max ==> !r.maxex))
    {
      RangeMeans(Contents(), r);
      hide InRange, Passes, Below, Elems, Sorted, NoneIn, IsLast, RowOk, TopLevel, Bounded, Distinct, Less, Next, Snapshot, GteMin, LteMax, Passed;
      var some := IsInRange(r);
      if !some { return null, 0; }
      ghost var p := PassedExists(Contents(), r, true);
      LastCandidate(Contents(), r, p);
      PassedBound(Contents(), r, true, p);
      x := Descend(r, true, p);
      if !GteMin(x.score, r) { return null, 0; }
      k := p - 1;
      LastOrNone(Contents(), r, k);
    }

    lemma NothingIn(r: Range)
      requires Valid() && tail == null
      ensures NoneIn(Contents(), r)
    {}
  }

  lemma PassedBound(es: seq<Elem>, r: Range, toLast: bool, p: nat)
    requires Passed(es, r, toLast, p)
    ensures p <= |es|
  {}

  lemma FirstOrNone(es: seq<Elem>, r: Range, k: int)
    requires IsFirst(es, r, k)
    ensures !NoneIn(es, r)
  {}

  lemma LastOrNone(es: seq<Elem>, r: Range, k: int)
    requires IsLast(es, r, k)
    ensures !NoneIn(es, r)
  {}

  lemma PassedNext(all: seq<Node>, h: seq<nat>, rows: seq<Row>, level: nat, p: nat)
    requires Linked(all, h, rows, level) && p < |h|
    ensures |rows[p].fwd| > 0 && rows[p].fwd[0] == Target(all, p + 1)
  {
    hide Next;
    assert h[p] > 0;
    RowLink(all, h, rows, level, p, 0);
    NextBase(h, p, level);
  }

  lemma ForwardPassed(all: seq<Node>, h: seq<nat>, k: nat, l: nat, r: Range, toLast: bool, p: nat)
    requires 0 < |all| == |h| && k < |h| && Passed(Elems(all), r, toLast, p)
    requires Next(h, k, l) < |all| && Passes(all[Next(h, k, l)].score, r, toLast)
    ensures Next(h, k, l) <= p
  {
    hide Next, Passes;
    assert Elems(all)[Next(h, k, l) - 1] == all[Next(h, k, l)].Item();
  }

  lemma RangeEnd(all: seq<Node>, h: seq<nat>, k: nat, l: nat, r: Range, toLast: bool, p: nat, f: Node?)
    requires 0 < |all| == |h| && k <= p < |h| && h[0] > l && h[k] > l && Passed(Elems(all), r, toLast, p)
    requires f == Target(all, Next(h, k, l)) && (f == null || !Passes(f.score, r, toLast))
    ensures Below(h, p, l) == k
  {
    hide Next, Below, Passes;
    var q := Next(h, k, l);
    if q < |all| { assert Elems(all)[q - 1] == all[q].Item(); }
    BelowIs(h, p, l, k);
  }

  lemma RemoveMembers<T>(s: seq<T>, k: nat)
    requires k < |s|
    ensures forall n :: n in RemoveAt(s, k) ==> n in s
  {}

  method NextOf(u: Node, ghost all: seq<Node>, ghost rows: seq<Row>, ghost p: nat) returns (x: Node?)
    requires Snapshot(all, rows) && p < |all| && u == all[p] && |rows[p].fwd| > 0
    ensures x == rows[p].fwd[0]
  {
    x := u.forward[0];
  }

  lemma PathNext(all: seq<Node>, h: seq<nat>, rows: seq<Row>, level: nat, p: nat, update: seq<Node>, rank: seq<nat>)
    requires Linked(all, h, rows, level) && p < |h| && Path(all, h, p, update, rank, level)
    ensures |update| > 0 && update[0] == all[p] && |rows[p].fwd| > 0 && rows[p].fwd[0] == Target(all, p + 1)
  {
    hide Below, Next;
    assert h[p] > 0;
    RowLink(all, h, rows, level, p, 0);
    NextBase(h, p, level);
  }

  /** The only candidate for e is the node after position p. */
  lemma AtPosition(all: seq<Node>, p: nat, e: Elem)
    requires |all| > 0 && Sorted(Elems(all)) && p == Position(Elems(all), e)
    ensures e in Elems(all) <==> p + 1 < |all| && all[p + 1].Item() == e
    ensures e in Elems(all) ==> Removed(Elems(all), e) == RemoveAt(Elems(all), p)
    ensures e !in Elems(all) ==> Removed(Elems(all), e) == Elems(all)
  {
    hide Position, Sorted, Less;
    RemovedFacts(Elems(all), e);
  }

  lemma RemoveEnds(all: seq<Node>, p: nat)
    requires p + 1 < |all|
    ensures var all0 := RemoveAt(all, p + 1);
            && all0[0] == all[0] && Elems(all0) == RemoveAt(Elems(all), p)
            && all0[|all0| - 1] == if p + 2 == |all| then all[p] else all[|all| - 1]
  {}

  /** The links around x on level i. */
  method CutLevel(x: Node, u: Node, i: nat, ghost level: nat, ghost all: seq<Node>, ghost h: seq<nat>, ghost rows0: seq<Row>,
                  ghost rows: seq<Row>, ghost p: nat)
    returns (ghost next: seq<Row>)
    requires Linked(all, h, rows0, level) && Snapshot(all, rows) && h[0] == MAXLEVEL && Distinct(all) && |all| == |h| == |rows0|
    requires i < level <= MAXLEVEL && p + 1 < |all| && x == all[p + 1] && u == all[Below(h, p, i)]
    requires Cut(h, p, x, rows0[p + 1], rows0, rows, i)
    modifies u`forward, u`span
    ensures Snapshot(all, next) && Cut(h, p, x, rows0[p + 1], rows0, next, i + 1)
  {
    hide RowOk, Bounded, Below, Linked, CutRow;
    ghost var b := Below(h, p, i);
    CutFacts(all, h, rows0, level, p, x, rows, i);
    var f, s := u.forward[i], u.span[i];
    if f == x {
      f, s := x.forward[i], s + x.span[i] - 1;
    } else {
      s := s - 1;
    }
    CutStep(h, p, x, rows0[p + 1], rows0, rows, i, Row(rows[b].fwd[i := f], rows[b].span[i := s], rows[b].back));
    hide Cut;
    next := Relink(u, i, f, s, all, rows, b);
  }

  lemma CutFacts(all: seq<Node>, h: seq<nat>, rows0: seq<Row>, level: nat, p: nat, x: Node, rows: seq<Row>, i: nat)
    requires Linked(all, h, rows0, level) && p + 1 < |h| && h[0] == MAXLEVEL && i < level <= MAXLEVEL && x == all[p + 1]
    requires Cut(h, p, x, rows0[p + 1], rows0, rows, i)
    ensures var b := Below(h, p, i);
            && b <= p && |rows[b].fwd| == |rows[b].span| == h[b] > i && rows[b].span[i] >= 1
            && rows[p + 1] == rows0[p + 1]
            && (rows[b].fwd[i] == x ==> |rows[p + 1].fwd| == |rows[p + 1].span| > i)
  {
    hide Below, Next, CutLink;
    var b := Below(h, p, i);
    BelowNext(h, p, i);
    assert RowOk(all, h, level, b, rows0[b]) && CutRow(h, p, x, rows0[p + 1], b, rows0[b], rows[b], i);
    assert LinkOk(all, h, level, b, i, rows0[b].fwd[i], rows0[b].span[i]);
    assert RowOk(all, h, level, p + 1, rows0[p + 1]) && CutRow(h, p, x, rows0[p + 1], p + 1, rows0[p + 1], rows[p + 1], i);
    assert rows[p + 1].fwd == rows0[p + 1].fwd && rows[p + 1].span == rows0[p + 1].span;
  }

  lemma CutStart(all: seq<Node>, h: seq<nat>, rows0: seq<Row>, level: nat, p: nat, x: Node)
    requires Linked(all, h, rows0, level) && p + 1 < |h|
    ensures |all| == |h| == |rows0| && h[0] == MAXLEVEL && level <= MAXLEVEL && Distinct(all)
    ensures Cut(h, p, x, rows0[p + 1], rows0, rows0, 0)
  {
    forall i | 0 <= i < |h|
      ensures CutRow(h, p, x, rows0[p + 1], i, rows0[i], rows0[i], 0)
    {
      assert RowOk(all, h, level, i, rows0[i]);
    }
  }

  /** The loop of zslDeleteNode. */
  method CutOut(x: Node, level: nat, update: seq<Node>, ghost rank: seq<nat>, ghost all: seq<Node>, ghost h: seq<nat>,
                ghost rows0: seq<Row>, ghost p: nat)
    returns (ghost rows: seq<Row>)
    requires Linked(all, h, rows0, level) && Snapshot(all, rows0) && p + 1 < |h| && x == all[p + 1]
    requires Path(all, h, p, update, rank, level)
    modifies all
    ensures |all| == |h| == |rows0| == |rows| && h[0] == MAXLEVEL && level <= MAXLEVEL
    ensures Snapshot(all, rows) && Cut(h, p, x, rows0[p + 1], rows0, rows, level)
  {
    hide Below, Linked, CutRow, Snapshot, Distinct;
    rows := rows0;
    CutStart(all, h, rows0, level, p, x);
    var i := 0;
    while i < level
      invariant i <= level && Snapshot(all, rows) && Cut(h, p, x, rows0[p + 1], rows0, rows, i)
    {
      assert update[i] == all[Below(h, p, i)] && update[i] in all;
      rows := CutLevel(x, update[i], i, level, all, h, rows0, rows, p);
      i := i + 1;
    }
  }

  lemma InsertedSize(es: seq<Elem>, e: Elem)
    ensures |Inserted(es, e)| == |es| + 1
  {}

  lemma InsertEnds(all: seq<Node>, p: nat, x: Node)
    requires p < |all|
    ensures var all1 := InsertAt(all, p + 1, x);
            all1[0] == all[0] && all1[|all1| - 1] == if p + 1 == |all| then x else all[|all| - 1]
  {}

  /** The new node created and linked in. */
  method Place(header: Node, length: nat, level0: nat, lv: nat, e: Elem, update0: seq<Node>, rank0: seq<nat>,
               ghost all: seq<Node>, ghost h: seq<nat>, ghost rows0: seq<Row>, ghost p: nat)
    returns (level: nat, x: Node, ghost rows: seq<Row>)
    requires Shape(all, h, rows0, level0) && Snapshot(all, rows0) && header == all[0] && length == |all| - 1
    requires p < |h| && Path(all, h, p, update0, rank0, level0) && 1 <= lv <= MAXLEVEL
    requires e !in Elems(all) && p == Position(Elems(all), e)
    modifies all
    ensures fresh(x) && x.Item() == e && |x.forward| > 0 && x.forward[0] == Target(all, p + 1)
    ensures Shape(InsertAt(all, p + 1, x), InsertAt(h, p + 1, lv), rows, level)
    ensures Snapshot(InsertAt(all, p + 1, x), rows) && Elems(InsertAt(all, p + 1, x)) == Inserted(Elems(all), e)
  {
    hide Linked, Position, Inserted, TopLevel, Path, Snapshot, Spliced, NewRow, Less, Below, Sorted, InsertAt, Elems, Distinct;
    var update, rank;
    ghost var rows1;
    level, update, rank, rows1 := RaiseTo(header, length, level0, lv, update0, rank0, all, h, rows0, p);
    x := new Node(lv, e.score, e.obj);
    ghost var rows2 := HookIn(x, level, lv, update, rank, all, h, rows1, p);
    BaseFacts(all, h, rows1, level, p, x, lv, rows2, x.forward, x.span);
    PathBase(all, h, p, update, rank, level);
    ghost var rows3 := HookBack(x, header, update[0], all, rows2, p);
    InsertShape(all, h, rows1, level0, level, lv, p, x, rows2, rows3, Row(x.forward, x.span, x.backward));
    InsertSnapshot(all, rows3, x, p + 1);
    rows := InsertAt(rows3, p + 1, Row(x.forward, x.span, x.backward));
  }

  /** The backward links around x, whose level 0 predecessor is u. */
  method HookBack(x: Node, header: Node, u: Node, ghost all: seq<Node>, ghost rows2: seq<Row>, ghost p: nat)
    returns (ghost rows3: seq<Row>)
    requires Snapshot(all, rows2) && Distinct(all) && p < |all| && header == all[0] && u == all[p] && x !in all
    requires |x.forward| > 0 && x.forward[0] == Target(all, p + 1)
    modifies x`backward, all
    ensures Snapshot(all, rows3) && x.backward == if p == 0 then null else all[p]
    ensures rows3 == if p + 1 < |all| then rows2[p + 1 := rows2[p + 1].(back := x)] else rows2
    ensures x.forward == old(x.forward) && x.span == old(x.span)
  {
    x.backward := if u == header then null else u;
    rows3 := rows2;
    hide Snapshot, Distinct;
    if x.forward[0] != null { rows3 := SetBackward(x.forward[0], x, all, rows2, p + 1); }
  }

  lemma PathBase(all: seq<Node>, h: seq<nat>, p: nat, update: seq<Node>, rank: seq<nat>, level: nat)
    requires p < |h| == |all| && h[0] == MAXLEVEL && level > 0 && Path(all, h, p, update, rank, level) && Below(h, p, 0) == p
    ensures |update| > 0 && update[0] == all[p]
  {}

  lemma BaseFacts(all: seq<Node>, h: seq<nat>, rows1: seq<Row>, level: nat, p: nat, x: Node, lv: nat, rows2: seq<Row>,
                  fwd: seq<Node?>, span: seq<nat>)
    requires Linked(all, h, rows1, level) && p < |h| && 1 <= lv <= level && |fwd| == |span| == lv
    requires Spliced(h, p, x, lv, rows1, rows2, level) && NewRow(h, p, rows1, fwd, span, lv)
    ensures |all| == |h| == |rows2| && h[0] == MAXLEVEL && Distinct(all) && level >= 1
    ensures Below(h, p, 0) == p && fwd[0] == Target(all, p + 1)
  {
    hide Below, Next;
    assert h[p] > 0;
    RowLink(all, h, rows1, level, p, 0);
    NextBase(h, p, level);
  }

  lemma NextBase(h: seq<nat>, p: nat, level: nat)
    requires p < |h| && Bounded(h, level)
    ensures Next(h, p, 0) == p + 1
  {}

  lemma LevelBound(h: seq<nat>, level: nat)
    requires Bounded(h, level)
    ensures level <= MAXLEVEL
  {}

  lemma RowLink(all: seq<Node>, h: seq<nat>, rows: seq<Row>, level: nat, i: nat, l: nat)
    requires Linked(all, h, rows, level) && i < |all| && l < h[i]
    ensures |rows[i].fwd| == |rows[i].span| == h[i] && LinkOk(all, h, level, i, l, rows[i].fwd[l], rows[i].span[l])
  {
    hide LinkOk;
    assert RowOk(all, h, level, i, rows[i]);
  }

  /** A forward node that is less lies within the first p elements. */
  lemma ForwardLess(all: seq<Node>, h: seq<nat>, r: nat, l: nat, e: Elem, p: nat)
    requires 0 < |all| == |h| && r < |h| && Sorted(Elems(all)) && p == Position(Elems(all), e)
    requires Next(h, r, l) < |all| && Less(all[Next(h, r, l)].Item(), e)
    ensures Next(h, r, l) <= p
  {
    hide Less, Next;
    PositionSplits(Elems(all), e);
    assert Elems(all)[Next(h, r, l) - 1] == all[Next(h, r, l)].Item();
  }

  lemma PathEnd(all: seq<Node>, h: seq<nat>, r: nat, l: nat, e: Elem, p: nat, f: Node?)
    requires 0 < |all| == |h| && r <= p < |h| && h[0] > l && h[r] > l && Sorted(Elems(all)) && p == Position(Elems(all), e)
    requires f == Target(all, Next(h, r, l)) && (f == null || !Less(f.Item(), e))
    ensures Below(h, p, l) == r
  {
    hide Less, Next, Below;
    PositionSplits(Elems(all), e);
    var q := Next(h, r, l);
    if q < |all| { assert Elems(all)[q - 1] == all[q].Item(); }
    BelowIs(h, p, l, r);
  }

  lemma InsertShape(all: seq<Node>, h: seq<nat>, rows1: seq<Row>, level0: nat, level: nat, lv: nat, p: nat, x: Node,
                    rows2: seq<Row>, rows3: seq<Row>, r: Row)
    requires Linked(all, h, rows1, level) && p < |h| && 1 <= lv <= level && |r.fwd| == |r.span| == lv && x !in all
    requires TopLevel(h, level0) && level == (if lv > level0 then lv else level0)
    requires Sorted(Elems(all)) && x.Item() !in Elems(all) && p == Position(Elems(all), x.Item())
    requires Spliced(h, p, x, lv, rows1, rows2, level) && NewRow(h, p, rows1, r.fwd, r.span, lv)
    requires r.back == if p == 0 then null else all[p]
    requires rows3 == if p + 1 < |all| then rows2[p + 1 := rows2[p + 1].(back := x)] else rows2
    ensures |rows3| == |all|
    ensures Shape(InsertAt(all, p + 1, x), InsertAt(h, p + 1, lv), InsertAt(rows3, p + 1, r), level)
    ensures Elems(InsertAt(all, p + 1, x)) == Inserted(Elems(all), x.Item())
  {
    hide Below, Next, Less, RowOk, SplicedRow, Position, Distinct;
    InsertElems(all, p, x);
    InsertedFacts(Elems(all), x.Item());
    hide Inserted, Sorted, Elems;
    var h1 := InsertAt(h, p + 1, lv);
    InsertTop(h, level0, level, lv, p);
    hide TopLevel, NewRow, Bounded;
    InsertLinked(all, h, rows1, level, p, x, lv, rows2, r, InsertAt(all, p + 1, x), h1, InsertAt(rows3, p + 1, r));
  }

  lemma InsertTop(h: seq<nat>, level0: nat, level: nat, lv: nat, p: nat)
    requires p < |h| && TopLevel(h, level0) && level == (if lv > level0 then lv else level0) && 1 <= lv <= MAXLEVEL
    ensures TopLevel(InsertAt(h, p + 1, lv), level)
  {
    hide InsertAt;
    var h1 := InsertAt(h, p + 1, lv);
    if lv >= level0 {
      assert h1[p + 1] == level;
    } else if level0 > 1 {
      var i :| 1 <= i < |h| && h[i] == level0;
      assert h1[if i <= p then i else i + 1] == level0;
    }
  }

  lemma InsertElems(all: seq<Node>, p: nat, x: Node)
    requires p < |all| && p == Position(Elems(all), x.Item())
    ensures Elems(InsertAt(all, p + 1, x)) == Inserted(Elems(all), x.Item())
  {
    hide Position;
  }

  lemma InsertSnapshot(all: seq<Node>, rows: seq<Row>, x: Node, k: nat)
    requires Snapshot(all, rows) && k <= |all|
    ensures Snapshot(InsertAt(all, k, x), InsertAt(rows, k, Row(x.forward, x.span, x.backward)))
  {
    hide InsertAt;
  }

  lemma RemoveSnapshot(all: seq<Node>, rows: seq<Row>, k: nat)
    requires Snapshot(all, rows) && k < |all|
    ensures Snapshot(RemoveAt(all, k), RemoveAt(rows, k))
  {
    hide RemoveAt;
  }

  /** x unhooked, its backward link passed on, the level lowered. */
  method Unplace(header: Node, x: Node, level0: nat, update: seq<Node>, ghost rank: seq<nat>, ghost all: seq<Node>,
                 ghost h: seq<nat>, ghost rows0: seq<Row>, ghost p: nat)
    returns (level: nat, last: bool, ghost rows: seq<Row>)
    requires Shape(all, h, rows0, level0) && Snapshot(all, rows0) && header == all[0]
    requires p + 1 < |all| && x == all[p + 1] && Path(all, h, p, update, rank, level0)
    modifies all
    ensures Shape(RemoveAt(all, p + 1), RemoveAt(h, p + 1), rows, level) && Snapshot(RemoveAt(all, p + 1), rows)
    ensures (last <==> p + 2 == |all|) && x.backward == if p == 0 then null else all[p]
  {
    hide Linked, TopLevel, Path, Snapshot, Cut, Below, RemoveAt, Sorted, Elems, Distinct, Bounded;
    LinkedSizes(all, h, rows0, level0);
    ghost var rows2 := CutOut(x, level0, update, rank, all, h, rows0, p);
    CutNode(all, h, rows0, level0, p, x, rows2);
    var next := NextOf(x, all, rows2, p + 1);
    last := next == null;
    ghost var rows3 := PassBack(x, next, all, rows2, p);
    UnplaceLinked(all, h, rows0, level0, p, x, rows2, rows3);
    RemoveSnapshot(all, rows3, p + 1);
    rows := RemoveAt(rows3, p + 1);
    RemoveSorted(all, p);
    level := Lower(header, level0, RemoveAt(all, p + 1), RemoveAt(h, p + 1), rows);
  }

  method PassBack(x: Node, next: Node?, ghost all: seq<Node>, ghost rows2: seq<Row>, ghost p: nat)
    returns (ghost rows3: seq<Row>)
    requires Snapshot(all, rows2) && Distinct(all) && p + 1 < |all| && x == all[p + 1] && next == Target(all, p + 2)
    requires rows2[p + 1].back == if p == 0 then null else all[p]
    modifies all
    ensures Snapshot(all, rows3) && x.backward == if p == 0 then null else all[p]
    ensures rows3 == if p + 2 < |all| then rows2[p + 2 := rows2[p + 2].(back := rows2[p + 1].back)] else rows2
  {
    rows3 := rows2;
    assert x.backward == rows2[p + 1].back;
    if next != null {
      var b := x.backward;
      rows3 := SetBackward(next, b, all, rows2, p + 2);
      assert rows3[p + 1] == rows2[p + 1];
    }
  }

  /** The cut leaves the row of x itself alone. */
  lemma CutNode(all: seq<Node>, h: seq<nat>, rows0: seq<Row>, level: nat, p: nat, x: Node, rows: seq<Row>)
    requires Linked(all, h, rows0, level) && p + 1 < |h| && h[0] == MAXLEVEL && level <= MAXLEVEL
    requires Cut(h, p, x, rows0[p + 1], rows0, rows, level)
    ensures |rows| == |all| == |h| == |rows0| && rows[p + 1] == rows0[p + 1] && Distinct(all)
    ensures rows[p + 1].back == (if p == 0 then null else all[p])
    ensures |rows[p + 1].fwd| > 0 && rows[p + 1].fwd[0] == Target(all, p + 2)
  {
    hide Below, Next, CutLink;
    assert RowOk(all, h, level, p + 1, rows0[p + 1]) && CutRow(h, p, x, rows0[p + 1], p + 1, rows0[p + 1], rows[p + 1], level);
    assert rows[p + 1].fwd == rows0[p + 1].fwd && rows[p + 1].span == rows0[p + 1].span;
    RowLink(all, h, rows0, level, p + 1, 0);
    NextBase(h, p + 1, level);
  }

  lemma UnplaceLinked(all: seq<Node>, h: seq<nat>, rows0: seq<Row>, level: nat, p: nat, x: Node, rows2: seq<Row>, rows3: seq<Row>)
    requires Linked(all, h, rows0, level) && p + 1 < |h| && |all| == |h| == |rows0| == |rows2| && x == all[p + 1]
    requires h[0] == MAXLEVEL && level <= MAXLEVEL && Cut(h, p, x, rows0[p + 1], rows0, rows2, level) && rows2[p + 1] == rows0[p + 1]
    requires rows3 == if p + 2 < |all| then rows2[p + 2 := rows2[p + 2].(back := rows2[p + 1].back)] else rows2
    ensures Linked(RemoveAt(all, p + 1), RemoveAt(h, p + 1), RemoveAt(rows3, p + 1), level)
  {
    hide Linked, Cut;
    DeleteLinked(all, h, rows0, level, p, x, rows2, RemoveAt(all, p + 1), RemoveAt(h, p + 1), RemoveAt(rows3, p + 1));
  }

  lemma RemoveSorted(all: seq<Node>, p: nat)
    requires p + 1 < |all| && Sorted(Elems(all))
    ensures Sorted(Elems(RemoveAt(all, p + 1)))
  {
    hide Less;
    RemoveEnds(all, p);
  }

  /** Drop the top levels of the header that have become empty. */
  method Lower(header: Node, level0: nat, ghost all: seq<Node>, ghost h: seq<nat>, ghost rows: seq<Row>) returns (level: nat)
    requires Linked(all, h, rows, level0) && Snapshot(all, rows) && |all| > 0 && header == all[0]
    ensures Linked(all, h, rows, level) && TopLevel(h, level)
  {
    hide Linked, TopLevel;
    level := level0;
    LinkedSizes(all, h, rows, level);
    LowerLevel(all, h, rows, level);
    while level > 1 && header.forward[level - 1] == null
      invariant Linked(all, h, rows, level) && 1 <= level <= |rows[0].fwd|
      invariant rows[0].fwd[level - 1] != null ==> TopLevel(h, level)
    {
      LowerLevel(all, h, rows, level);
      level := level - 1;
      LowerLevel(all, h, rows, level);
    }
    LevelOne(all, h, rows, level);
  }

  lemma LinkedSizes(all: seq<Node>, h: seq<nat>, rows: seq<Row>, level: nat)
    requires Linked(all, h, rows, level)
    ensures |all| == |h| == |rows| && |all| > 0 && 1 <= level <= MAXLEVEL
  {}

  lemma ShapeSizes(all: seq<Node>, h: seq<nat>, rows: seq<Row>, level: nat)
    requires Shape(all, h, rows, level)
    ensures |all| == |h| == |rows| && |all| > 0
  {}

  lemma LevelOne(all: seq<Node>, h: seq<nat>, rows: seq<Row>, level: nat)
    requires Linked(all, h, rows, level)
    ensures level == 1 ==> TopLevel(h, level)
  {}

  /** Every link of a list in plain terms: forward is the next node that is tall
      enough, the span counts the steps to it or to the end, and backward is the
      node before. */
  lemma LinksExact(c: Skiplist, i: nat, l: nat) returns (j: nat)
    requires c.Valid() && i < |c.all| && l < |c.all[i].forward|
    ensures i < j <= |c.all| && |c.all[i].span| == |c.all[i].forward|
    ensures forall m :: i < m < j ==> |c.all[m].forward| <= l
    ensures if j == |c.all| then c.all[i].forward[l] == null else c.all[i].forward[l] == c.all[j] && |c.all[j].forward| > l
    ensures l < c.level ==> c.all[i].span[l] == (if j == |c.all| then j - 1 else j) - i
    ensures c.all[i].backward == if i <= 1 then null else c.all[i - 1]
  {
    hide Sorted, Next, TopLevel;
    assert forall k :: 0 <= k < |c.all| ==> RowOk(c.all, c.h, c.level, k, c.rows[k]) && |c.all[k].forward| == c.h[k];
    assert LinkOk(c.all, c.h, c.level, i, l, c.rows[i].fwd[l], c.rows[i].span[l]);
    j := Next(c.h, i, l);
  }

  /** The ends of a list, its length, its level and its order in plain terms. */
  lemma EndsAndOrder(c: Skiplist)
    requires c.Valid()
    ensures |c.all| == c.length + 1 && c.header == c.all[0] && c.tail == if c.length == 0 then null else c.all[c.length]
    ensures 1 <= c.level <= 32 && forall i :: 1 <= i < |c.all| ==> 1 <= |c.all[i].forward| <= c.level
    ensures c.level > 1 ==> exists i :: 1 <= i < |c.all| && |c.all[i].forward| == c.level
    ensures |c.header.forward| == 32
    ensures forall i, j :: 1 <= i < j < |c.all| ==>
              var a, b := c.all[i], c.all[j];
              a.score < b.score || (a.score == b.score &&
                exists n :: 0 <= n < |b.obj| && n <= |a.obj| && a.obj[..n] == b.obj[..n] && (n == |a.obj| || a.obj[n] < b.obj[n]))
  {
    hide Next, LinkOk, Before;
    assert forall k :: 0 <= k < |c.all| ==> RowOk(c.all, c.h, c.level, k, c.rows[k]) && |c.all[k].forward| == c.h[k];
    forall i, j | 1 <= i < j < |c.all|
      ensures var a, b := c.all[i], c.all[j];
              a.score < b.score || (a.score == b.score &&
                exists n :: 0 <= n < |b.obj| && n <= |a.obj| && a.obj[..n] == b.obj[..n] && (n == |a.obj| || a.obj[n] < b.obj[n]))
    {
      assert Less(Elems(c.all)[i - 1], Elems(c.all)[j - 1]);
      BeforeMeans(c.all[i].obj, c.all[j].obj);
    }
  }
}
