// The shape of a skiplist as a value (t_zset.c): the nodes in list order with
// the header in front, and what every link and span must be.
module SkiplistShape {
  import opened Bytes
  import opened Sequences

  const MAXLEVEL: nat := 32

  // ---------------------------------------------------------------- elements

  /** Only the order of scores matters, so they are numbered in that order. */
  type Score = int

  datatype Elem = Elem(score: Score, obj: bytes)

  /** compareStringObjects < 0: bytes first, then the shorter one. */
  predicate Before(a: bytes, b: bytes) {
    if b == [] then false
    else if a == [] then true
    else a[0] < b[0] || (a[0] == b[0] && Before(a[1..], b[1..]))
  }

  /** The first byte that differs decides; if none does, the shorter string is
      before the longer one. */
  lemma {:induction false} BeforeMeans(a: bytes, b: bytes)
    ensures Before(a, b) <==> exists n :: 0 <= n < |b| && n <= |a| && a[..n] == b[..n] && (n == |a| || a[n] < b[n])
  {
    if b != [] && (a == [] || a[0] < b[0]) {
      assert a[..0] == b[..0];
    } else if a != [] && b != [] && a[0] == b[0] {
      BeforeMeans(a[1..], b[1..]);
      hide Before;
      if n :| 0 <= n < |b| - 1 && n <= |a| - 1 && a[1..][..n] == b[1..][..n] && (n == |a| - 1 || a[1..][n] < b[1..][n]) {
        assert a[..n + 1] == [a[0]] + a[1..][..n] && b[..n + 1] == [b[0]] + b[1..][..n];
      }
      if n :| 0 <= n < |b| && n <= |a| && a[..n] == b[..n] && (n == |a| || a[n] < b[n]) {
        assert n > 0 && a[1..][..n - 1] == a[..n][1..] && b[1..][..n - 1] == b[..n][1..];
      }
    }
  }

  predicate Less(a: Elem, b: Elem) {
    a.score < b.score || (a.score == b.score && Before(a.obj, b.obj))
  }

  lemma {:induction false} BeforeTotal(a: bytes, b: bytes)
    ensures a == b ==> !Before(a, b)
    ensures a != b ==> Before(a, b) != Before(b, a)
  {
    if a != [] && b != [] && a[0] == b[0] {
      BeforeTotal(a[1..], b[1..]);
      assert a == [a[0]] + a[1..] && b == [b[0]] + b[1..];
    }
  }

  lemma {:induction false} BeforeTransitive(a: bytes, b: bytes, c: bytes)
    requires Before(a, b) && Before(b, c)
    ensures Before(a, c)
  {
    if a != [] && a[0] == b[0] == c[0] { BeforeTransitive(a[1..], b[1..], c[1..]); }
  }

  lemma LessTotal(a: Elem, b: Elem)
    ensures a == b ==> !Less(a, b)
    ensures a != b ==> Less(a, b) != Less(b, a)
  {
    BeforeTotal(a.obj, b.obj);
    hide Before;
  }

  lemma LessTransitive(a: Elem, b: Elem, c: Elem)
    requires Less(a, b) && Less(b, c)
    ensures Less(a, c)
  {
    if a.score == b.score == c.score { BeforeTransitive(a.obj, b.obj, c.obj); }
    hide Before;
  }

  ghost predicate Sorted(es: seq<Elem>) {
    forall i, j :: 0 <= i < j < |es| ==> Less(es[i], es[j])
  }

  /** Where e goes: before the first element that is not less. */
  function Position(es: seq<Elem>, e: Elem): (p: nat)
    ensures p <= |es|
  {
    if es == [] || !Less(es[0], e) then 0 else 1 + Position(es[1..], e)
  }

  lemma {:induction false} PositionSplits(es: seq<Elem>, e: Elem)
    requires Sorted(es)
    ensures forall i :: 0 <= i < Position(es, e) ==> Less(es[i], e)
    ensures forall i :: Position(es, e) <= i < |es| ==> !Less(es[i], e)
  {
    hide Less;
    if es == [] {
    } else if !Less(es[0], e) {
      forall i | 0 <= i < |es|
        ensures !Less(es[i], e)
      {
        if i > 0 && Less(es[i], e) { LessTransitive(es[0], es[i], e); }
      }
    } else {
      PositionSplits(es[1..], e);
      forall i | 0 <= i < |es|
        ensures Less(es[i], e) <==> i < Position(es, e)
      {
        if i > 0 { assert es[i] == es[1..][i - 1]; }
      }
    }
  }

  lemma PositionIs(es: seq<Elem>, e: Elem, p: nat)
    requires Sorted(es) && p <= |es| && (p > 0 ==> Less(es[p - 1], e)) && (p < |es| ==> !Less(es[p], e))
    ensures Position(es, e) == p
  {
    PositionSplits(es, e);
  }

  /** The sorted insertion. */
  function Inserted(es: seq<Elem>, e: Elem): seq<Elem> {
    es[..Position(es, e)] + [e] + es[Position(es, e)..]
  }

  function Removed(es: seq<Elem>, e: Elem): seq<Elem> {
    var p := Position(es, e);
    if p < |es| && es[p] == e then es[..p] + es[p + 1..] else es
  }

  lemma InsertedFacts(es: seq<Elem>, e: Elem)
    requires Sorted(es) && e !in es
    ensures Sorted(Inserted(es, e)) && Removed(Inserted(es, e), e) == es
    ensures forall x :: x in Inserted(es, e) <==> x in es || x == e
  {
    hide Less;
    var p := Position(es, e);
    var r := Inserted(es, e);
    PositionSplits(es, e);
    InsertedSorted(es, e);
    assert r[p] == e;
    LessTotal(e, e);
    if p > 0 { assert r[p - 1] == es[p - 1]; }
    PositionIs(r, e, p);
    assert r[..p] + r[p + 1..] == es;
    assert es == es[..p] + es[p..];
  }

  lemma InsertedSorted(es: seq<Elem>, e: Elem)
    requires Sorted(es) && e !in es
    ensures Sorted(Inserted(es, e))
  {
    hide Less, Position;
    var p := Position(es, e);
    var r := Inserted(es, e);
    PositionSplits(es, e);
    forall i, j | 0 <= i < j < |r|
      ensures Less(r[i], r[j])
    {
      if j == p {
        assert r[i] == es[i];
      } else if i == p {
        assert r[j] == es[j - 1];
        LessTotal(es[j - 1], e);
      } else {
        assert r[i] == es[if i < p then i else i - 1] && r[j] == es[if j < p then j else j - 1];
      }
    }
  }

  /** Removal takes out e and nothing else. */
  lemma RemovedFacts(es: seq<Elem>, e: Elem)
    requires Sorted(es)
    ensures Sorted(Removed(es, e))
    ensures forall x :: x in Removed(es, e) <==> x in es && x != e
    ensures e in es <==> Position(es, e) < |es| && es[Position(es, e)] == e
  {
    hide Less;
    var p := Position(es, e);
    PositionSplits(es, e);
    LessTotal(e, e);
    if e in es {
      var j :| 0 <= j < |es| && es[j] == e;
      LessTotal(es[p], e);
      assert j == p;
      RemovedAt(es, p);
    }
  }

  lemma RemovedAt(es: seq<Elem>, p: nat)
    requires Sorted(es) && p < |es|
    ensures var r := es[..p] + es[p + 1..];
            Sorted(r) && forall x :: x in r <==> x in es && x != es[p]
  {
    hide Less;
    var r := es[..p] + es[p + 1..];
    assert forall i :: 0 <= i < |r| ==> r[i] == es[if i < p then i else i + 1];
    forall x | x in es && x != es[p]
      ensures x in r
    {
      var j :| 0 <= j < |es| && es[j] == x;
      assert r[if j < p then j else j - 1] == x;
    }
    LessTotal(es[p], es[p]);
  }

  // ------------------------------------------------------------------ ranges

  datatype Range = Range(min: Score, max: Score, minex: bool, maxex: bool)

  predicate GteMin(v: Score, r: Range) { if r.minex then v > r.min else v >= r.min }

  predicate LteMax(v: Score, r: Range) { if r.maxex then v < r.max else v <= r.max }

  predicate InRange(v: Score, r: Range) { GteMin(v, r) && LteMax(v, r) }

  /** Whether a range walk goes past a score: below the range on the way to
      its first element, not above it on the way to its last one. */
  predicate Passes(v: Score, r: Range, toLast: bool) { if toLast then LteMax(v, r) else !GteMin(v, r) }

  ghost predicate Passed(es: seq<Elem>, r: Range, toLast: bool, p: nat) {
    p <= |es| && forall i :: 0 <= i < |es| ==> (Passes(es[i].score, r, toLast) <==> i < p)
  }

  /** A walk passes the elements of a prefix. */
  lemma {:induction false} PassedExists(es: seq<Elem>, r: Range, toLast: bool) returns (p: nat)
    requires Sorted(es)
    ensures Passed(es, r, toLast, p)
  {
    if es == [] || !Passes(es[0].score, r, toLast) {
      p := 0;
      forall i | 0 < i < |es|
        ensures !Passes(es[i].score, r, toLast)
      {
        assert Less(es[0], es[i]);
      }
    } else {
      var q := PassedExists(es[1..], r, toLast);
      p := q + 1;
      assert forall i :: 1 <= i < |es| ==> es[i] == es[1..][i - 1];
    }
  }

  /** The earliest element in the range. */
  ghost predicate IsFirst(es: seq<Elem>, r: Range, k: int) {
    0 <= k < |es| && InRange(es[k].score, r) && forall i :: 0 <= i < k ==> !InRange(es[i].score, r)
  }

  ghost predicate IsLast(es: seq<Elem>, r: Range, k: int) {
    0 <= k < |es| && InRange(es[k].score, r) && forall i :: k < i < |es| ==> !InRange(es[i].score, r)
  }

  ghost predicate NoneIn(es: seq<Elem>, r: Range) {
    forall i :: 0 <= i < |es| ==> !InRange(es[i].score, r)
  }

  /** The bounds of a range in plain comparisons. */
  lemma RangeMeans(es: seq<Elem>, r: Range)
    ensures NoneIn(es, r) <==> forall i :: 0 <= i < |es| ==> var v := es[i].score;
              !(r.min <= v <= r.max && (v == r.min ==> !r.minex) && (v == r.max ==> !r.maxex))
    ensures forall k :: IsFirst(es, r, k) ==>
              && 0 <= k < |es| && r.min <= es[k].score <= r.max
              && (es[k].score == r.min ==> !r.minex) && (es[k].score == r.max ==> !r.maxex)
              && forall i :: 0 <= i < k ==> var v := es[i].score;
                   !(r.min <= v <= r.max && (v == r.min ==> !r.minex) && (v == r.max ==> !r.maxex))
    ensures forall k :: IsLast(es, r, k) ==>
              && 0 <= k < |es| && r.min <= es[k].score <= r.max
              && (es[k].score == r.min ==> !r.minex) && (es[k].score == r.max ==> !r.maxex)
              && forall i :: k < i < |es| ==> var v := es[i].score;
                   !(r.min <= v <= r.max && (v == r.min ==> !r.minex) && (v == r.max ==> !r.maxex))
  {}

  lemma SortedScores(es: seq<Elem>, i: nat, j: nat)
    requires Sorted(es) && i <= j < |es|
    ensures es[i].score <= es[j].score
  {
    if i < j { assert Less(es[i], es[j]); }
  }

  /** What the early test of zslIsInRange rules out, and what it leaves. */
  lemma EarlyTest(es: seq<Elem>, r: Range)
    requires Sorted(es)
    ensures r.min > r.max || (r.min == r.max && (r.minex || r.maxex)) ==> NoneIn(es, r)
    ensures |es| > 0 && !GteMin(es[|es| - 1].score, r) ==> NoneIn(es, r)
    ensures |es| > 0 && !LteMax(es[0].score, r) ==> NoneIn(es, r)
  {
    hide Sorted;
    forall i | 0 <= i < |es|
      ensures es[0].score <= es[i].score <= es[|es| - 1].score
    {
      SortedScores(es, 0, i);
      SortedScores(es, i, |es| - 1);
    }
  }

  /** The element after the ones below the range is the only candidate. */
  lemma FirstCandidate(es: seq<Elem>, r: Range, p: nat)
    requires Sorted(es) && Passed(es, r, false, p) && |es| > 0 && GteMin(es[|es| - 1].score, r)
    ensures p < |es| && if LteMax(es[p].score, r) then IsFirst(es, r, p) else NoneIn(es, r)
  {
    hide Sorted;
    forall i | p <= i < |es|
      ensures es[p].score <= es[i].score
    {
      SortedScores(es, p, i);
    }
  }

  lemma LastCandidate(es: seq<Elem>, r: Range, p: nat)
    requires Sorted(es) && Passed(es, r, true, p) && |es| > 0 && LteMax(es[0].score, r)
    ensures 0 < p && if GteMin(es[p - 1].score, r) then IsLast(es, r, p - 1) else NoneIn(es, r)
  {
    hide Sorted;
    forall i | 0 <= i < p
      ensures es[i].score <= es[p - 1].score
    {
      SortedScores(es, i, p - 1);
    }
  }

  // ----------------------------------------------------------------- heights

  /** The first index after i of a node that has level l; |h| when there is none. */
  function Next(h: seq<nat>, i: nat, l: nat): (q: nat)
    requires i < |h|
    ensures i < q <= |h| && (q < |h| ==> h[q] > l)
    ensures forall j :: i < j < q ==> h[j] <= l
    decreases |h| - i
  {
    if i + 1 == |h| then |h| else if h[i + 1] > l then i + 1 else Next(h, i + 1, l)
  }

  /** The last index up to p of a node that has level l. */
  function Below(h: seq<nat>, p: nat, l: nat): (b: nat)
    requires p < |h| && h[0] > l
    ensures b <= p && h[b] > l
    ensures forall j :: b < j <= p ==> h[j] <= l
  {
    if h[p] > l then p else Below(h, p - 1, l)
  }

  lemma NextIs(h: seq<nat>, i: nat, l: nat, q: nat)
    requires i < q <= |h| && (q < |h| ==> h[q] > l) && forall j :: i < j < q ==> h[j] <= l
    ensures Next(h, i, l) == q
  {}

  lemma BelowIs(h: seq<nat>, p: nat, l: nat, b: nat)
    requires p < |h| && h[0] > l && b <= p && h[b] > l && Next(h, b, l) > p
    ensures Below(h, p, l) == b
  {
    hide Next, Below;
  }

  lemma BelowNext(h: seq<nat>, p: nat, l: nat)
    requires p < |h| && h[0] > l
    ensures Next(h, Below(h, p, l), l) > p && Next(h, Below(h, p, l), l) == Next(h, p, l)
  {
    NextIs(h, Below(h, p, l), l, Next(h, p, l));
    hide Next, Below;
  }

  /** Where the successors go when a node of height hx comes in at p + 1. */
  lemma NextInserted(h: seq<nat>, p: nat, hx: nat, i: nat, l: nat)
    requires p < |h| && i <= |h|
    ensures var g := InsertAt(h, p + 1, hx);
            Next(g, i, l) == if i > p then Next(h, i - 1, l) + 1
                             else if Next(h, i, l) <= p then Next(h, i, l)
                             else if hx > l then p + 1
                             else Next(h, i, l) + 1
  {
    var g := InsertAt(h, p + 1, hx);
    hide InsertAt, Next;
    if i > p {
      NextIs(g, i, l, Next(h, i - 1, l) + 1);
    } else if Next(h, i, l) <= p {
      NextIs(g, i, l, Next(h, i, l));
    } else if hx > l {
      NextIs(g, i, l, p + 1);
    } else {
      NextIs(g, i, l, Next(h, i, l) + 1);
    }
  }

  ghost predicate Bounded(h: seq<nat>, level: nat) {
    1 <= level <= MAXLEVEL && forall i :: 1 <= i < |h| ==> 1 <= h[i] <= level
  }

  /** The list level is the greatest height of a node, at least 1. */
  ghost predicate TopLevel(h: seq<nat>, level: nat) {
    Bounded(h, level) && (level == 1 || exists i :: 1 <= i < |h| && h[i] == level)
  }
}
