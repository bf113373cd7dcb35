// A ziplist as a sequence of entries (ziplist.c): the byte layout, the
// prevlen links between neighbours, and what insertion and deletion do to
// them.  The buffer code is proved against these functions.
module ZiplistNodes {
  import opened Bytes
  import opened Sequences
  import opened ZiplistEntry

  /** One entry: the prevlen it stores, in which form, and its body. */
  datatype Node = Node(prev: nat, big: bool, body: bytes)

  /** The entry can be read back: a short prevlen fits its byte, the body is whole. */
  predicate Readable(e: Node) {
    e.prev < U32 && (!e.big ==> e.prev < ZIP_BIGLEN) && BodyOk(e.body)
  }

  predicate AllReadable(es: seq<Node>) { forall i :: 0 <= i < |es| ==> Readable(es[i]) }

  function RawLen(e: Node): nat { (if e.big then 5 else 1) + |e.body| }

  function Raw(e: Node): (r: bytes)
    ensures |r| == RawLen(e)
  {
    PrevField(e.prev, e.big) + e.body
  }

  function Ser(es: seq<Node>): bytes {
    if es == [] then [] else Raw(es[0]) + Ser(es[1..])
  }

  function Values(es: seq<Node>): (r: seq<bytes>)
    ensures |r| == |es|
  {
    seq(|es|, i requires 0 <= i < |es| => BodyText(es[i].body))
  }

  /** Every entry stores the raw length of its predecessor. */
  predicate Chain(prev: nat, es: seq<Node>)
    decreases |es|
  {
    es == [] || (es[0].prev == prev && Chain(RawLen(es[0]), es[1..]))
  }

  function LastLen(prev: nat, es: seq<Node>): nat {
    if es == [] then prev else RawLen(es[|es| - 1])
  }

  /** Distance from the first entry to the last one. */
  function TailDist(es: seq<Node>): nat {
    if es == [] then 0 else |Ser(es[..|es| - 1])|
  }

  /** Store a predecessor length, widening the field only when needed. */
  function Relinked(prev: nat, e: Node): Node {
    Node(prev, e.big || prev >= ZIP_BIGLEN, e.body)
  }

  /** Rewrite all links, front to back, with no early stop. */
  function Relink(prev: nat, es: seq<Node>): (r: seq<Node>)
    ensures |r| == |es|
    decreases |es|
  {
    if es == [] then []
    else
      var e := Relinked(prev, es[0]);
      [e] + Relink(RawLen(e), es[1..])
  }

  function InsertNodes(es: seq<Node>, k: nat, body: bytes): seq<Node>
    requires k <= |es|
  {
    var prev := if k < |es| then es[k].prev else LastLen(0, es);
    var e := Node(prev, prev >= ZIP_BIGLEN, body);
    if k == |es| then es + [e]
    else
      // a five-byte field is kept only when giving it back would shrink the list
      var next := Node(RawLen(e), RawLen(e) >= ZIP_BIGLEN || (es[k].big && RawLen(e) < 4), es[k].body);
      es[..k] + ([e] + ([next] + Relink(RawLen(next), es[k + 1..])))
  }

  /** Remove the entries k..m. */
  function DeleteNodes(es: seq<Node>, k: nat, m: nat): seq<Node>
    requires k < |es| && k <= m <= |es|
  {
    if k == m then es
    else if m == |es| then es[..k]
    else
      var next := Node(es[k].prev, es[k].prev >= ZIP_BIGLEN, es[m].body);
      es[..k] + ([next] + Relink(RawLen(next), es[m + 1..]))
  }

  // ------------------------------------------------------------------ lemmas

  lemma {:induction false} SerAppend(a: seq<Node>, b: seq<Node>)
    ensures Ser(a + b) == Ser(a) + Ser(b)
  {
    if a == [] {
      assert a + b == b;
    } else {
      assert (a + b)[1..] == a[1..] + b;
      SerAppend(a[1..], b);
      Assoc(Raw(a[0]), Ser(a[1..]), Ser(b));
    }
  }

  lemma SerSplit(es: seq<Node>, k: nat)
    requires k <= |es|
    ensures Ser(es) == Ser(es[..k]) + Ser(es[k..])
  {
    hide *;
    SerAppend(es[..k], es[k..]);
    SplitAt(es, k);
  }

  lemma SerOne(e: Node)
    ensures Ser([e]) == Raw(e)
  {
    assert [e][1..] == [];
  }

  lemma {:induction false} ChainAppend(prev: nat, a: seq<Node>, b: seq<Node>)
    ensures Chain(prev, a + b) <==> Chain(prev, a) && Chain(LastLen(prev, a), b)
    decreases |a|
  {
    if a == [] {
      assert a + b == b;
    } else {
      ChainAppend(RawLen(a[0]), a[1..], b);
      assert (a + b)[1..] == a[1..] + b;
    }
  }

  lemma {:induction false} ChainSplit(prev: nat, es: seq<Node>, k: nat)
    requires Chain(prev, es) && k <= |es|
    ensures Chain(prev, es[..k]) && Chain(LastLen(prev, es[..k]), es[k..])
    ensures k < |es| ==> es[k].prev == LastLen(prev, es[..k]) && Chain(RawLen(es[k]), es[k + 1..])
  {
    ChainAppend(prev, es[..k], es[k..]);
    assert es[..k] + es[k..] == es;
    if k < |es| { assert es[k..][1..] == es[k + 1..]; }
  }

  lemma {:induction false} RelinkChains(prev: nat, es: seq<Node>)
    ensures Chain(prev, Relink(prev, es))
    ensures forall i :: 0 <= i < |es| ==> Relink(prev, es)[i].body == es[i].body
    decreases |es|
  {
    hide Ser, Raw, BodyOk;
    if es != [] {
      var e := Relinked(prev, es[0]);
      RelinkChains(RawLen(e), es[1..]);
      ChainCons(prev, e, Relink(RawLen(e), es[1..]));
    }
  }

  /** A list whose links already hold needs no rewriting: the early stop is sound. */
  lemma {:induction false} RelinkStable(prev: nat, es: seq<Node>)
    requires Chain(prev, es) && AllReadable(es)
    ensures Relink(prev, es) == es
    decreases |es|
  {
    if es != [] {
      RelinkStable(RawLen(es[0]), es[1..]);
      assert Relinked(prev, es[0]) == es[0];
    }
  }

  lemma ChainCons(prev: nat, e: Node, t: seq<Node>)
    ensures Chain(prev, [e] + t) <==> e.prev == prev && Chain(RawLen(e), t)
  {
    assert ([e] + t)[1..] == t;
  }

  lemma ValuesAppend(a: seq<Node>, b: seq<Node>)
    ensures Values(a + b) == Values(a) + Values(b)
  {
    hide BodyText;
  }

  lemma ValuesCut(es: seq<Node>, k: nat)
    requires k <= |es|
    ensures Values(es[..k]) == Values(es)[..k] && Values(es[k..]) == Values(es)[k..]
  {
    hide BodyText;
  }

  lemma ValuesByBody(es: seq<Node>, fs: seq<Node>)
    requires |es| == |fs| && forall i :: 0 <= i < |es| ==> es[i].body == fs[i].body
    ensures Values(es) == Values(fs)
  {
    hide BodyText;
  }

  /** A new head over a relinked rest: links hold, values are unchanged. */
  lemma RelinkedTail(e: Node, es: seq<Node>, prev: nat)
    requires es != [] && e.prev == prev && e.body == es[0].body
    ensures var r := [e] + Relink(RawLen(e), es[1..]); Chain(prev, r) && Values(r) == Values(es)
  {
    hide BodyText, BodyOk, Raw;
    var t := Relink(RawLen(e), es[1..]);
    RelinkChains(RawLen(e), es[1..]);
    ChainCons(prev, e, t);
    ValuesByBody([e] + t, es);
    assert ([e] + t)[1..] == t;
  }

  lemma InsertBeforeCorrect(es: seq<Node>, k: nat, e: Node, next: Node)
    requires k < |es| && Chain(0, es)
    requires e.prev == es[k].prev && next.prev == RawLen(e) && next.body == es[k].body
    ensures var r := es[..k] + ([e] + ([next] + Relink(RawLen(next), es[k + 1..])));
            && Chain(0, r)
            && Values(r) == Values(es)[..k] + ([BodyText(e.body)] + Values(es)[k..])
  {
    hide BodyText, Raw, Relink;
    ChainSplit(0, es, k);
    var t := [next] + Relink(RawLen(next), es[k + 1..]);
    assert es[k..][1..] == es[k + 1..];
    RelinkedTail(next, es[k..], RawLen(e));
    ChainCons(es[k].prev, e, t);
    ChainAppend(0, es[..k], [e] + t);
    ValuesAppend(es[..k], [e] + t);
    ValuesAppend([e], t);
    ValuesCut(es, k);
    assert Values([e]) == [BodyText(e.body)];
  }

  lemma AppendCorrect(es: seq<Node>, e: Node)
    requires Chain(0, es) && e.prev == LastLen(0, es)
    ensures Chain(0, es + [e]) && Values(es + [e]) == Values(es) + [BodyText(e.body)]
  {
    hide BodyText, Raw, Relink;
    ChainAppend(0, es, [e]);
    assert [e][1..] == [];
    ValuesAppend(es, [e]);
    assert Values([e]) == [BodyText(e.body)];
  }

  /** Insertion keeps every link and inserts exactly one value. */
  lemma InsertNodesCorrect(es: seq<Node>, k: nat, body: bytes)
    requires k <= |es| && Chain(0, es)
    ensures Chain(0, InsertNodes(es, k, body))
    ensures Values(InsertNodes(es, k, body)) == Values(es)[..k] + ([BodyText(body)] + Values(es)[k..])
  {
    hide BodyText, Raw, Relink, Chain, Values, LastLen, Ser;
    var prev := if k < |es| then es[k].prev else LastLen(0, es);
    var e := Node(prev, prev >= ZIP_BIGLEN, body);
    if k == |es| {
      AppendCorrect(es, e);
      CutAtEnd(Values(es), [BodyText(body)]);
    } else {
      var next := Node(RawLen(e), RawLen(e) >= ZIP_BIGLEN || (es[k].big && RawLen(e) < 4), es[k].body);
      InsertBeforeCorrect(es, k, e, next);
    }
  }

  lemma CutAtEnd<T>(s: seq<T>, t: seq<T>)
    ensures s + t == s[..|s|] + (t + s[|s|..]) && s == s[..|s|] + s[|s|..]
  {}

  lemma NothingAfter<T>(s: seq<T>, k: nat)
    requires k <= |s|
    ensures s[..k] + s[|s|..] == s[..k]
  {}

  lemma DeleteTailCorrect(es: seq<Node>, k: nat)
    requires k <= |es| && Chain(0, es)
    ensures Chain(0, es[..k]) && Values(es[..k]) == Values(es)[..k] + Values(es)[|es|..]
  {
    hide Values, Chain;
    ChainSplit(0, es, k);
    ValuesCut(es, k);
    NothingAfter(Values(es), k);
  }

  lemma DeleteMiddleCorrect(es: seq<Node>, k: nat, m: nat, next: Node)
    requires k < m < |es| && Chain(0, es) && next.prev == es[k].prev && next.body == es[m].body
    ensures var r := es[..k] + ([next] + Relink(RawLen(next), es[m + 1..]));
            Chain(0, r) && Values(r) == Values(es)[..k] + Values(es)[m..]
  {
    hide BodyText, Raw, Relink, Chain, Values;
    var rest := es[m..];
    assert rest[1..] == es[m + 1..];
    var t := [next] + Relink(RawLen(next), rest[1..]);
    ChainSplit(0, es, k);
    RelinkedTail(next, rest, es[k].prev);
    ChainAppend(0, es[..k], t);
    ValuesAppend(es[..k], t);
    ValuesCut(es, k);
    ValuesCut(es, m);
  }

  /** Deletion of the entries k..m keeps every link and removes exactly their values. */
  lemma DeleteNodesCorrect(es: seq<Node>, k: nat, m: nat)
    requires k < |es| && k <= m <= |es| && Chain(0, es)
    ensures Chain(0, DeleteNodes(es, k, m))
    ensures Values(DeleteNodes(es, k, m)) == Values(es)[..k] + Values(es)[m..]
  {
    hide BodyText, Raw, Relink, Chain, Values, LastLen, Ser, RawLen;
    if k == m {
      SplitAt(Values(es), k);
    } else if m == |es| {
      DeleteTailCorrect(es, k);
    } else {
      var next := Node(es[k].prev, es[k].prev >= ZIP_BIGLEN, es[m].body);
      DeleteMiddleCorrect(es, k, m, next);
    }
  }

  /** Appending a second list: only its links need attention. */
  lemma MergeNodesCorrect(a: seq<Node>, b: seq<Node>)
    requires Chain(0, a) && Chain(0, b)
    ensures var r := a + Relink(LastLen(0, a), b);
            Chain(0, r) && Values(r) == Values(a) + Values(b)
  {
    hide Raw, Ser, BodyText, Relink, Chain, LastLen, RawLen, Values;
    RelinkChains(LastLen(0, a), b);
    ChainAppend(0, a, Relink(LastLen(0, a), b));
    ValuesAppend(a, Relink(LastLen(0, a), b));
    SameBodies(Relink(LastLen(0, a), b), b);
  }

  lemma SameBodies(a: seq<Node>, b: seq<Node>)
    requires |a| == |b| && forall i :: 0 <= i < |b| ==> a[i].body == b[i].body
    ensures Values(a) == Values(b)
  {
    hide BodyText;
  }

  // ------------------------------------------------------------------ widths

  /** The same body, in a field that is wide if it was or if it has to be. */
  ghost predicate Widened(e: Node, was: Node) {
    e.body == was.body && (e.big <==> was.big || e.prev >= 254)
  }

  /** Relinking gives five bytes to fields that had them and to those whose
      length needs them, and to no others. */
  lemma {:induction false} RelinkWidths(prev: nat, es: seq<Node>)
    ensures forall i :: 0 <= i < |es| ==> Widened(Relink(prev, es)[i], es[i])
    decreases |es|
  {
    if es != [] {
      var e := Relinked(prev, es[0]);
      RelinkWidths(RawLen(e), es[1..]);
      var t := Relink(RawLen(e), es[1..]);
      assert Relink(prev, es) == [e] + t && Widened(e, es[0]);
      hide Relink, Widened;
      assert forall i :: 1 <= i < |es| ==> ([e] + t)[i] == t[i - 1] && es[i] == es[1..][i - 1];
    }
  }

  /** Entry m of a list over a relinked rest, behind any front. */
  lemma WidthsBehind(front: seq<Node>, es: seq<Node>, m: nat, next: Node)
    requires m < |es|
    ensures var r := front + ([next] + Relink(RawLen(next), es[m + 1..]));
            && |r| == |front| + |es| - m && r[|front|] == next && r[..|front|] == front
            && forall i :: |front| < i < |r| ==> Widened(r[i], es[i - |front| + m])
  {
    RelinkWidths(RawLen(next), es[m + 1..]);
    hide Relink, RawLen, Widened;
    var t := Relink(RawLen(next), es[m + 1..]);
    var r := front + ([next] + t);
    forall i | |front| < i < |r|
      ensures Widened(r[i], es[i - |front| + m])
    {
      assert r[i] == t[i - |front| - 1] && es[i - |front| + m] == es[m + 1..][i - |front| - 1];
    }
  }

  /** The bodies of a list, and which fields are wide, after an insertion: the
      new entry's is as short as its length allows, the next one keeps five bytes
      only if the new entry takes less than four, the others never shrink. */
  lemma InsertNodesWidths(es: seq<Node>, k: nat, body: bytes)
    requires k <= |es|
    ensures var r := InsertNodes(es, k, body);
            && |r| == |es| + 1 && r[..k] == es[..k]
            && r[k].body == body && (r[k].big <==> r[k].prev >= 254)
            && (k < |es| ==> r[k + 1].body == es[k].body
                             && (r[k + 1].big <==> r[k + 1].prev >= 254 || (es[k].big && RawLen(r[k]) < 4)))
            && forall i :: k + 1 < i < |r| ==> r[i].body == es[i - 1].body && (r[i].big <==> es[i - 1].big || r[i].prev >= 254)
  {
    hide Relink, BodyOk;
    var prev := if k < |es| then es[k].prev else LastLen(0, es);
    var e := Node(prev, prev >= ZIP_BIGLEN, body);
    if k < |es| {
      var next := Node(RawLen(e), RawLen(e) >= ZIP_BIGLEN || (es[k].big && RawLen(e) < 4), es[k].body);
      WidthsInside(es, k, e, next);
    } else {
      assert InsertNodes(es, k, body)[k] == e;
    }
  }

  lemma WidthsInside(es: seq<Node>, k: nat, e: Node, next: Node)
    requires k < |es|
    ensures var r := es[..k] + ([e] + ([next] + Relink(RawLen(next), es[k + 1..])));
            && |r| == |es| + 1 && r[..k] == es[..k] && r[k] == e && r[k + 1] == next
            && forall i :: k + 1 < i < |r| ==> Widened(r[i], es[i - 1])
  {
    hide *;
    var t := Relink(RawLen(next), es[k + 1..]);
    WidthsBehind(es[..k] + [e], es, k, next);
    Assoc(es[..k], [e], [next] + t);
    Front(es[..k] + [e] + ([next] + t), es[..k], e);
  }

  lemma Front(r: seq<Node>, a: seq<Node>, e: Node)
    requires |r| > |a| && r[..|a + [e]|] == a + [e]
    ensures r[..|a|] == a && r[|a|] == e
  {
    assert r[..|a + [e]|][..|a|] == r[..|a|] && r[..|a + [e]|][|a|] == r[|a|];
  }

  /** The same after a deletion: the entry behind the gap gets the width that its
      length needs, the others never shrink. */
  lemma DeleteNodesWidths(es: seq<Node>, k: nat, m: nat)
    requires k < |es| && k < m <= |es|
    ensures var r := DeleteNodes(es, k, m);
            && |r| == |es| - (m - k) && r[..k] == es[..k]
            && (m < |es| ==> r[k].body == es[m].body && (r[k].big <==> r[k].prev >= 254))
            && forall i :: k < i < |r| ==>
                 r[i].body == es[i + (m - k)].body && (r[i].big <==> es[i + (m - k)].big || r[i].prev >= 254)
  {
    if m < |es| {
      hide Relink, RawLen;
      WidthsBehind(es[..k], es, m, Node(es[k].prev, es[k].prev >= ZIP_BIGLEN, es[m].body));
    }
  }
}
