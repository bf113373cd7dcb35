// The ziplist as an object: the buffer that callers hold, with the operations
// of ziplist.h proved against the plain list of byte strings it stands for.
module Ziplist {
  import opened Bytes
  import opened Util
  import opened ZiplistEntry
  import opened ZiplistNodes
  import opened ZiplistBuffer
  import opened ZiplistInsert
  import Deletion = ZiplistDelete
  import Merging = ZiplistMerge
  import Reading = ZiplistRead

  /** A list without the num entries from index on; unchanged when there is no such entry. */
  function RangeDeleted(vs: seq<bytes>, index: int, num: nat): seq<bytes> {
    if -|vs| <= index < |vs| then
      var k := if index >= 0 then index else |vs| + index;
      vs[..k] + vs[k + Deletion.Min(num, |vs| - k)..]
    else vs
  }

  class Ziplist {
    var zl: bytes
    ghost var nodes: seq<Node>

    ghost predicate Valid()
      reads this
    {
      Wf(zl, nodes)
    }

    /** The byte strings stored, in order. */
    ghost function Contents(): seq<bytes>
      reads this
    {
      Values(nodes)
    }

    /** Room for extra bytes even if every prevlen field has to be widened. */
    ghost predicate Room(extra: nat)
      reads this
    {
      |zl| + 4 * |nodes| + extra + 20 < U32
    }

    /** ziplistNew. */
    constructor ()
      ensures Valid() && Contents() == [] && |zl| == HEADER + 1
    {
      zl := Le4(HEADER + 1) + Le4(HEADER) + Le2(0) + [ZIP_END];
      nodes := [];
      new;
      EmptyWf(zl);
    }

    /** ziplistInsert before the entry at p, or at the end mark. */
    method InsertAt(p: nat, s: bytes, ghost k: nat)
      requires Valid() && k <= |nodes| && p == Offset(nodes, k) && Room(|s|)
      modifies this
      ensures Valid() && Contents() == old(Contents())[..k] + ([s] + old(Contents())[k..])
    {
      hide Values, Wf, Offset, BodyFor, BodyText;
      Facts(zl, nodes);
      zl := Insert(zl, p, s, nodes, k);
      InsertNodesCorrect(nodes, k, BodyFor(s));
      BodyRoundTrip(s);
      nodes := InsertNodes(nodes, k, BodyFor(s));
    }

    /** ziplistPush. */
    method Push(s: bytes, head: bool)
      requires Valid() && Room(|s|)
      modifies this
      ensures Valid() && Contents() == if head then [s] + old(Contents()) else old(Contents()) + [s]
    {
      var p := if head then HEADER else ZlBytes(zl) - 1;
      ghost var k := if head then 0 else |nodes|;
      Ends(zl, nodes);
      hide Values, Wf, Offset;
      InsertAt(p, s, k);
    }

    /** ziplistDelete: the entry at p. */
    method DeleteAt(p: nat, ghost k: nat)
      requires Valid() && k < |nodes| && p == Offset(nodes, k) && Room(0)
      modifies this
      ensures Valid() && Contents() == old(Contents())[..k] + old(Contents())[k + 1..]
    {
      hide Values, Wf, Offset;
      Facts(zl, nodes);
      zl := Deletion.Delete(zl, p, 1, nodes, k);
      DeleteNodesCorrect(nodes, k, k + 1);
      nodes := DeleteNodes(nodes, k, k + 1);
    }

    /** ziplistDeleteRange: nothing happens when index is out of range. */
    method DeleteRange(index: int, num: nat)
      requires Valid() && num < U32 && Room(0)
      modifies this
      ensures Valid() && Contents() == RangeDeleted(old(Contents()), index, num)
    {
      hide Values, Wf, Offset, RangeDeleted, DeleteNodes, Chain;
      var found, p := Reading.Index(zl, index, nodes);
      if found {
        ghost var k := if index >= 0 then index else |nodes| + index;
        RangeIs(Values(nodes), index, num, k);
        Facts(zl, nodes);
        zl := Deletion.Delete(zl, p, num, nodes, k);
        ghost var m := k + Deletion.Min(num, |nodes| - k);
        DeleteNodesCorrect(nodes, k, m);
        nodes := DeleteNodes(nodes, k, m);
      } else {
        NoRange(Values(nodes), index, num);
      }
    }

    /** ziplistLen. */
    method Length() returns (len: nat)
      requires Valid()
      modifies this`zl
      ensures Valid() && len == |Contents()|
    {
      zl, len := Reading.Length(zl, nodes);
    }

    /** ziplistMerge with a second, distinct list: the result replaces this
        list, whichever buffer was kept; other is freed by the source. */
    method Merge(other: Ziplist)
      requires Valid() && other.Valid() && other != this
      requires |zl| + |other.zl| + 4 * |other.nodes| + 8 < U32
      requires other.nodes != [] || nodes == []
      modifies this
      ensures Valid() && Contents() == old(Contents()) + other.Contents()
    {
      var append;
      zl, append := Merging.Merge(zl, other.zl, nodes, other.nodes);
      MergeNodesCorrect(nodes, other.nodes);
      nodes := Merging.MergeNodes(nodes, other.nodes);
    }
  }

  lemma RangeIs(vs: seq<bytes>, index: int, num: nat, k: nat)
    requires -|vs| <= index < |vs| && k == if index >= 0 then index else |vs| + index
    ensures RangeDeleted(vs, index, num) == vs[..k] + vs[k + Deletion.Min(num, |vs| - k)..]
  {}

  lemma NoRange(vs: seq<bytes>, index: int, num: nat)
    requires !(-|vs| <= index < |vs|)
    ensures RangeDeleted(vs, index, num) == vs
  {}

  lemma EmptyWf(z: bytes)
    requires z == Le4(HEADER + 1) + Le4(HEADER) + Le2(0) + [ZIP_END]
    ensures Wf(z, [])
  {
    Get4OfLe4(z, 0, HEADER + 1);
    Get4OfLe4(z, 4, HEADER);
    Get2OfLe2(z, 8, 0);
    EmptyRegion(z, HEADER);
  }

  lemma Facts(z: bytes, es: seq<Node>)
    requires Wf(z, es)
    ensures Chain(0, es)
  {}

  lemma Ends(z: bytes, es: seq<Node>)
    requires Wf(z, es)
    ensures Offset(es, 0) == HEADER && |z| > HEADER && Offset(es, |es|) == ZlBytes(z) - 1 >= 0
  {
    NoOffset(es);
    Locate(z, es, |es|);
    assert es[|es|..] == [];
    RegionHead(z, Offset(es, |es|), []);
  }

  // ------------------------------------------------------------------ example

  lemma NotInText(v: int)
    ensures |Text(v)| > 0 && Text(v)[0] < 58
  {
    ValOfDec(if v < 0 then -v else v);
    hide Dec;
  }

  lemma HelloBody()
    ensures BodyFor([104, 101, 108, 108, 111]) == [5, 104, 101, 108, 108, 111]
  {
    var hello: bytes := [104, 101, 108, 108, 111];
    forall v ensures Text(v) != hello { NotInText(v); }
    assert !IsIntText(hello);
    hide Text;
  }

  lemma ThousandBody()
    ensures BodyFor([49, 48, 48, 48]) == [0xc0, 0xe8, 3]
  {
    assert Dec(1000) == Dec(100) + [48] && Dec(100) == Dec(10) + [48] && Dec(10) == [49, 48];
    hide Dec;
    assert Text(1000) == [49, 48, 48, 48];
    hide Text;
    BodyForInt([49, 48, 48, 48], 1000);
    hide BodyFor;
    assert SaveInteger(1000, 0xc0) == Le2(1000) == [0xe8, 3] && IntEncoding(1000) == 0xc0;
    assert EncodeLength(0xc0, 4) == [0xc0];
  }

  lemma TwoEntries(a: Node, b: Node)
    ensures Ser([a, b]) == Raw(a) + Raw(b) && Chain(0, [a, b]) == (a.prev == 0 && b.prev == RawLen(a))
    ensures TailDist([a, b]) == RawLen(a)
  {
    hide Raw;
    assert [a, b] == [a] + [b] && [b] == [b] + [] && [a, b][..1] == [a];
    SerAppend([a], [b]);
    SerOne(a);
    SerOne(b);
    ChainCons(0, a, [b]);
    ChainCons(RawLen(a), b, []);
  }

  lemma ExampleNodes()
    ensures InsertNodes(InsertNodes([], 0, BodyFor([104, 101, 108, 108, 111])), 1, BodyFor([49, 48, 48, 48])) ==
            [Node(0, false, [5, 104, 101, 108, 108, 111]), Node(7, false, [0xc0, 0xe8, 3])]
  {
    HelloBody();
    ThousandBody();
    hide BodyFor, Relink;
    var a := Node(0, false, [5, 104, 101, 108, 108, 111]);
    assert InsertNodes([], 0, a.body) == [a];
  }

  lemma ExampleRaw()
    ensures Raw(Node(0, false, [5, 104, 101, 108, 108, 111])) == [0, 5, 104, 101, 108, 108, 111]
    ensures Raw(Node(7, false, [0xc0, 0xe8, 3])) == [7, 0xc0, 0xe8, 3]
    ensures Readable(Node(0, false, [5, 104, 101, 108, 108, 111])) && Readable(Node(7, false, [0xc0, 0xe8, 3]))
  {}

  lemma ExampleHeader(h: bytes, rest: bytes)
    requires h == [22, 0, 0, 0, 17, 0, 0, 0, 2, 0] && |rest| == 12
    ensures |h + rest| == 22 && ZlBytes(h + rest) == 22 && ZlTail(h + rest) == 17 && ZlCount(h + rest) == 2
  {
    assert forall i :: 0 <= i < 10 ==> (h + rest)[i] == h[i];
  }

  lemma ExampleBytes()
    ensures [22, 0, 0, 0, 17, 0, 0, 0, 2, 0] + ([0, 5, 104, 101, 108, 108, 111] + [7, 0xc0, 0xe8, 3] + [255]) ==
            [22, 0, 0, 0, 17, 0, 0, 0, 2, 0, 0, 5, 104, 101, 108, 108, 111, 7, 0xc0, 0xe8, 3, 255]
  {}

  lemma ExampleWf(a: Node, b: Node, h: bytes)
    requires a == Node(0, false, [5, 104, 101, 108, 108, 111]) && b == Node(7, false, [0xc0, 0xe8, 3])
    requires h == [22, 0, 0, 0, 17, 0, 0, 0, 2, 0]
    ensures Wf(h + ([0, 5, 104, 101, 108, 108, 111] + [7, 0xc0, 0xe8, 3] + [255]), [a, b])
  {
    hide Chain, TailDist, Raw, Ser, Readable, ZlBytes, ZlTail, ZlCount;
    ExampleRaw();
    TwoEntries(a, b);
    var rest := Raw(a) + Raw(b) + [255];
    ExampleHeader(h, rest);
    assert (h + rest)[10..] == rest;
  }

  /** The bytes after "hello" and "1000" were pushed: total, tail offset and count,
      then the two entries, the second one as a 16-bit integer, and the end mark. */
  lemma LayoutExample()
    ensures Wf([22, 0, 0, 0, 17, 0, 0, 0, 2, 0, 0, 5, 104, 101, 108, 108, 111, 7, 0xc0, 0xe8, 3, 255],
               InsertNodes(InsertNodes([], 0, BodyFor([104, 101, 108, 108, 111])), 1, BodyFor([49, 48, 48, 48])))
  {
    hide *;
    ExampleNodes();
    ExampleBytes();
    ExampleWf(Node(0, false, [5, 104, 101, 108, 108, 111]), Node(7, false, [0xc0, 0xe8, 3]), [22, 0, 0, 0, 17, 0, 0, 0, 2, 0]);
  }
}
