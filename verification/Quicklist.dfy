// The quicklist (quicklist.c) without compression: a linked list of ziplists.
module Quicklist {
  import opened Bytes
  import opened Sequences
  import opened QuicklistNodes
  import Z = Ziplist

  const SIZE_SAFETY_LIMIT: nat := 8192

  // ------------------------------------------------------------------ contents

  /** What the nodes hold. */
  ghost predicate Holds(ns: seq<Node>, parts: seq<seq<bytes>>)
    reads ns`zl, ns`count
  {
    |parts| == |ns| && forall i :: 0 <= i < |ns| ==> ns[i].zl == parts[i] && ns[i].count == |parts[i]|
  }

  ghost predicate Filled(parts: seq<seq<bytes>>) {
    forall i :: 0 <= i < |parts| ==> parts[i] != []
  }

  /** A non-negative fill bounds the entries of a node; one is always allowed. */
  ghost predicate Limited(parts: seq<seq<bytes>>, fill: int) {
    fill >= 0 ==> forall i :: 0 <= i < |parts| ==> |parts[i]| <= if fill < 1 then 1 else fill
  }

  /** The elements of all nodes in order. */
  function Flat(parts: seq<seq<bytes>>): seq<bytes> {
    if parts == [] then [] else parts[0] + Flat(parts[1..])
  }

  /** How many elements stand before node k. */
  function Start(parts: seq<seq<bytes>>, k: nat): nat
    requires k <= |parts|
  {
    |Flat(parts[..k])|
  }

  lemma {:induction false} FlatAppend(a: seq<seq<bytes>>, b: seq<seq<bytes>>)
    ensures Flat(a + b) == Flat(a) + Flat(b)
  {
    if a == [] {
      assert a + b == b;
    } else {
      assert (a + b)[1..] == a[1..] + b;
      FlatAppend(a[1..], b);
      Assoc(a[0], Flat(a[1..]), Flat(b));
    }
  }

  lemma FlatOne(p: seq<bytes>)
    ensures Flat([p]) == p
  {
    assert [p][1..] == [];
  }

  /** Some nodes replaced by others. */
  lemma FlatSplice(parts: seq<seq<bytes>>, i: nat, j: nat, mid: seq<seq<bytes>>)
    requires i <= j <= |parts|
    ensures Flat(parts[..i] + mid + parts[j..]) == Flat(parts[..i]) + Flat(mid) + Flat(parts[j..])
  {
    FlatAppend(parts[..i] + mid, parts[j..]);
    FlatAppend(parts[..i], mid);
  }

  lemma ThreeParts<T>(s: seq<T>, i: nat, j: nat)
    requires i <= j <= |s|
    ensures s == s[..i] + s[i..j] + s[j..]
  {}

  lemma FlatAround(parts: seq<seq<bytes>>, i: nat, j: nat)
    requires i <= j <= |parts|
    ensures Flat(parts) == Flat(parts[..i]) + Flat(parts[i..j]) + Flat(parts[j..])
  {
    hide Flat;
    ThreeParts(parts, i, j);
    FlatSplice(parts, i, j, parts[i..j]);
  }

  /** Nodes i to j replaced by nodes that hold one more element, at place p. */
  lemma InsertedFlat(parts: seq<seq<bytes>>, i: nat, j: nat, mid: seq<seq<bytes>>, p: nat, v: bytes)
    requires i <= j <= |parts| && p <= |Flat(parts[i..j])| && Flat(mid) == InsertAt(Flat(parts[i..j]), p, v)
    ensures Start(parts, i) + p <= |Flat(parts)|
    ensures Flat(parts[..i] + mid + parts[j..]) == InsertAt(Flat(parts), Start(parts, i) + p, v)
  {
    hide Flat, InsertAt;
    FlatSplice(parts, i, j, mid);
    FlatAround(parts, i, j);
    InsertMiddle(Flat(parts[..i]), Flat(parts[i..j]), Flat(parts[j..]), p, v);
  }

  lemma InsertMiddle(a: seq<bytes>, b: seq<bytes>, c: seq<bytes>, p: nat, v: bytes)
    requires p <= |b|
    ensures a + InsertAt(b, p, v) + c == InsertAt(a + b + c, |a| + p, v)
  {}

  // ------------------------------------------------------------------- splits

  /** What a split leaves in the node. */
  function Left(zl: seq<bytes>, offset: nat, after: bool): seq<bytes>
    requires offset < |zl|
  {
    if after then zl[..offset + 1] else zl[offset..]
  }

  /** What it puts into the new node: the others, if the whole node was copied. */
  function Cut(zl: seq<bytes>, offset: nat, after: bool, whole: bool, rest: seq<bytes>): seq<bytes>
    requires offset < |zl|
  {
    if !whole then rest else if after then zl[offset + 1..] else zl[..offset]
  }

  /** The nodes after a split, with the value at the cut end of the new node. */
  function SplitParts(parts: seq<seq<bytes>>, k: nat, offset: nat, value: bytes, after: bool, whole: bool, rest: seq<bytes>): seq<seq<bytes>>
    requires k < |parts| && offset < |parts[k]|
  {
    var cut := Cut(parts[k], offset, after, whole, rest);
    InsertAt(parts[k := Left(parts[k], offset, after)], if after then k + 1 else k, InsertAt(cut, if after then 0 else |cut|, value))
  }

  // ------------------------------------------------------------------- limits

  /** _quicklistNodeSizeMeetsOptimizationRequirement. */
  predicate SizeMeetsRequirement(sz: nat, fill: int) {
    if fill >= 0 then false
    else if fill == -1 then sz <= 4096
    else if fill == -2 then sz <= 8192
    else if fill == -3 then sz <= 16384
    else if fill == -4 then sz <= 32768
    else if fill == -5 then sz <= 65536
    else false
  }

  /** _quicklistNodeAllowInsert; sizes are 32-bit. */
  predicate AllowInsert(node: Node?, fill: int, sz: nat)
    reads node
  {
    node != null &&
    var overhead := (if sz < 254 then 1 else 5) + if sz < 64 then 1 else if sz < 16384 then 2 else 5;
    var newSz := (node.sz + sz + overhead) % U32;
    SizeMeetsRequirement(newSz, fill) || (newSz <= SIZE_SAFETY_LIMIT && node.count < fill)
  }

  /** _quicklistNodeAllowMerge. */
  predicate AllowMerge(a: Node?, b: Node?, fill: int)
    reads a, b
  {
    a != null && b != null &&
    var mergeSz := (a.sz + b.sz - 11) % U32;
    SizeMeetsRequirement(mergeSz, fill) || (mergeSz <= SIZE_SAFETY_LIMIT && a.count + b.count <= fill)
  }

  /** What the limits are: one to five stand for 4 to 64 KB, a fill of zero or more
      for that many entries in 8 KB. */
  lemma LimitsMean(a: Node, b: Node, fill: int, sz: nat)
    requires a.sz + b.sz + sz + 10 < U32 && a.sz + b.sz >= 11
    ensures AllowInsert(a, fill, sz) <==>
              var n := a.sz + sz + (if sz < 254 then 1 else 5) + (if sz < 64 then 1 else if sz < 16384 then 2 else 5);
              if fill >= 0 then a.count < fill && n <= 8192 else fill >= -5 && n <= [4096, 8192, 16384, 32768, 65536][-fill - 1]
    ensures AllowMerge(a, b, fill) <==>
              var n := a.sz + b.sz - 11;
              if fill >= 0 then a.count + b.count <= fill && n <= 8192 else fill >= -5 && n <= [4096, 8192, 16384, 32768, 65536][-fill - 1]
    ensures !AllowInsert(null, fill, sz) && !AllowMerge(null, b, fill) && !AllowMerge(a, null, fill)
  {}

  /** The stored sizes: right for every node, or never stored for one. */
  ghost predicate Sized(ns: seq<Node>, unsized: Node?)
    reads ns`sz, ns`blob
  {
    forall i :: 0 <= i < |ns| ==> ns[i].blob >= 11 && (ns[i].sz == ns[i].blob || (ns[i] == unsized && ns[i].sz == 0))
  }

  method SetZl(n: Node, zl: seq<bytes>, ghost ns: seq<Node>, ghost parts: seq<seq<bytes>>, ghost k: nat, ghost unsized: Node?)
    requires Holds(ns, parts) && Distinct(ns) && k < |ns| && n == ns[k] && Sized(ns, unsized)
    modifies n`zl, n`count, n`sz, n`blob
    ensures Holds(ns, parts[k := zl]) && n.zl == zl && n.count == |zl| && n.sz == n.blob && Sized(ns, unsized)
  {
    n.Put(zl);
    n.count := |zl|;
    n.UpdateSz();
  }

  class Quicklist {
    var head: Node?
    var tail: Node?
    var count: nat
    var len: nat
    var fill: int
    ghost var ns: seq<Node>
    ghost var parts: seq<seq<bytes>>
    /** The node whose size was never stored, if it is still there. */
    ghost var unsized: Node?

    /** Pointers, number of nodes and per-node counts are right. */
    ghost predicate Shape()
      reads this`head, this`tail, this`len, this`ns, this`parts, ns
    {
      && Linked(ns) && Holds(ns, parts)
      && head == At(ns, 0) && tail == At(ns, |ns| - 1) && len == |ns|
    }

    ghost predicate Whole()
      reads this`head, this`tail, this`len, this`ns, this`parts, ns
    {
      Shape() && Filled(parts)
    }

    ghost predicate Sound()
      reads this`head, this`tail, this`len, this`ns, this`parts, this`unsized, ns
    {
      Whole() && Sized(ns, unsized)
    }

    ghost predicate Valid()
      reads this, ns
    {
      Sound() && count == |Flat(parts)| && Limited(parts, fill)
    }

    ghost function All(): seq<bytes>
      reads this
    {
      Flat(parts)
    }

    /** quicklistNew. */
    constructor (fill: int)
      ensures Valid() && All() == [] && ns == [] && unsized == null && this.fill == fill
    {
      head, tail, count, len := null, null, 0, 0;
      this.fill := fill;
      ns, parts, unsized := [], [], null;
    }

    /** __quicklistInsertNode: newNode, already filled, goes next to node k. */
    method InsertNode(oldNode: Node?, newNode: Node, after: bool, ghost k: nat)
      requires Whole() && newNode !in ns && newNode.prev == null && newNode.next == null
      requires if oldNode == null then ns == [] && k == 0 else k < |ns| && oldNode == ns[k]
      requires newNode.zl != [] && newNode.count == |newNode.zl|
      modifies this`head, this`tail, this`len, this`ns, this`parts, newNode`prev, newNode`next, ns`prev, ns`next
      ensures Whole() && var j := if after && oldNode != null then k + 1 else k;
              ns == InsertAt(old(ns), j, newNode) && parts == InsertAt(old(parts), j, newNode.zl)
    {
      hide Linked, Holds, InsertAt, Filled;
      SameLength(ns, parts);
      ghost var j := if after && oldNode != null then k + 1 else k;
      InsertFilled(parts, j, newNode.zl);
      NewEnds(ns, k, oldNode, newNode, after);
      LinkNext(oldNode, newNode, after, ns, k, parts);
      if after {
        if tail == oldNode { tail := newNode; }
      } else {
        if head == oldNode { head := newNode; }
      }
      if len == 0 { head, tail := newNode, newNode; }
      len, ns, parts := len + 1, InsertAt(ns, j, newNode), InsertAt(parts, j, newNode.zl);
    }

    /** __quicklistDelNode. */
    method DelNode(node: Node, ghost k: nat)
      requires Shape() && k < |ns| && node == ns[k] && node.count <= count
      modifies this`head, this`tail, this`len, this`count, this`ns, this`parts, ns`prev, ns`next
      ensures Shape() && ns == RemoveAt(old(ns), k) && parts == RemoveAt(old(parts), k)
      ensures count == old(count) - old(node.count)
    {
      hide Linked, Holds, RemoveAt;
      NodeEnds(ns, k);
      LinkOut(node, ns, k);
      if node == tail { tail := node.prev; }
      if node == head { head := node.next; }
      count := count - node.count;
      RemoveHolds(ns, parts, k);
      RemoveEnds(ns, k);
      ns, parts := RemoveAt(ns, k), RemoveAt(parts, k);
      len := len - 1;
    }

    /** A node without entries goes. */
    method DelEmpty(node: Node, ghost k: nat)
      requires Shape() && Sized(ns, unsized) && k < |ns| && node == ns[k] && node.count == 0
      modifies this`head, this`tail, this`len, this`count, this`ns, this`parts, ns`prev, ns`next
      ensures Shape() && Sized(ns, unsized) && ns == RemoveAt(old(ns), k) && parts == RemoveAt(old(parts), k)
      ensures count == old(count)
    {
      hide Shape, Sized, RemoveAt;
      DelNode(node, k);
      RemoveSized(old(ns), k, unsized);
    }

    /** _quicklistZiplistMerge: nodes k and k + 1 become one. */
    method ZiplistMerge(a: Node, b: Node, ghost k: nat) returns (keep: Node)
      requires Sound() && k + 1 < |ns| && a == ns[k] && b == ns[k + 1]
      modifies this`head, this`tail, this`len, this`count, this`ns, this`parts, ns
      ensures Sound() && Flat(parts) == old(Flat(parts)) && count == old(count)
      ensures ns == RemoveAt(old(ns), if keep == a then k + 1 else k) && keep == ns[k] && (keep == a || keep == b)
      ensures old(Limited(parts, fill)) && (fill >= 0 ==> old(a.count) + old(b.count) <= fill) ==> Limited(parts, fill)
    {
      hide Linked, Holds, Filled, Flat, RemoveAt, Limited, Sized;
      Pair(ns, parts, k);
      ghost var p, q := parts[k], parts[k + 1];
      var merged := a.zl + b.zl;
      var nokeep: Node;
      if a.count >= b.count { keep, nokeep := a, b; } else { keep, nokeep := b, a; }
      ghost var kk, nk := if keep == a then k else k + 1, if keep == a then k + 1 else k;
      SetZl(keep, merged, ns, parts, kk, unsized);
      SetZl(nokeep, [], ns, parts[kk := merged], nk, unsized);
      ghost var before := parts;
      parts := parts[kk := merged][nk := []];
      Emptied(ns, parts, nk);
      DelEmpty(nokeep, nk);
      MergedParts(before, k, kk, nk, merged);
      MergedLimit(before, k, kk, nk, merged, fill);
      Survivor(old(ns), k, nk);
    }

    /** Merge two neighbours when the limits allow; both may be missing. */
    method TryMerge(a: Node?, b: Node?, ghost k: int, ghost S: set<Node>) returns (target: Node?)
      requires Sound() && (a != null && b != null ==> 0 <= k && k + 1 < |ns| && a == ns[k] && b == ns[k + 1])
      requires Within(ns, S)
      modifies this`head, this`tail, this`len, this`count, this`ns, this`parts, S
      ensures Sound() && Flat(parts) == old(Flat(parts)) && count == old(count) && Within(ns, S)
      ensures target != null <==> old(AllowMerge(a, b, fill))
      ensures target == null ==> unchanged(this) && unchanged(S)
      ensures target != null ==> |ns| == |old(ns)| - 1
      ensures target != null ==> 0 <= k && k + 1 < |old(ns)| && Dropped(old(ns), ns, k) && target == ns[k]
      ensures old(Limited(parts, fill)) ==> Limited(parts, fill)
    {
      hide Shape, Filled, Flat, RemoveAt, Limited;
      target := null;
      if AllowMerge(a, b, fill) {
        ghost var before := ns;
        target := ZiplistMerge(a, b, k);
        Subset(before, ns, k, S);
      }
    }

    /** _quicklistMergeNodes: up to four merges around center. */
    method MergeNodes(center: Node, ghost k0: nat, ghost S: set<Node>)
      requires Sound() && k0 < |ns| && center == ns[k0] && Within(ns, S)
      modifies this`head, this`tail, this`len, this`count, this`ns, this`parts, S
      ensures Sound() && Flat(parts) == old(Flat(parts)) && count == old(count) && Within(ns, S)
      ensures old(Limited(parts, fill)) ==> Limited(parts, fill)
      ensures |ns| <= |old(ns)|
      ensures |ns| == |old(ns)| <==>
        && !old(AllowMerge(At(ns, k0 - 2), At(ns, k0 - 1), fill)) && !old(AllowMerge(At(ns, k0 + 1), At(ns, k0 + 2), fill))
        && !old(AllowMerge(At(ns, k0 - 1), center, fill)) && !old(AllowMerge(center, At(ns, k0 + 1), fill))
    {
      hide Sound, Flat, Within, Limited, AllowMerge;
      ghost var k := MergeSides(center, k0, S);
      MergeCenter(center, k, S);
    }

    /** The merges of (prev->prev, prev) and (next, next->next). */
    method MergeSides(center: Node, ghost k0: nat, ghost S: set<Node>) returns (ghost k: nat)
      requires Sound() && k0 < |ns| && center == ns[k0] && Within(ns, S)
      modifies this`head, this`tail, this`len, this`count, this`ns, this`parts, S
      ensures Sound() && Flat(parts) == old(Flat(parts)) && count == old(count) && Within(ns, S)
      ensures k < |ns| && center == ns[k] && |ns| <= |old(ns)|
      ensures old(Limited(parts, fill)) ==> Limited(parts, fill)
      ensures |ns| == |old(ns)| <==>
        !old(AllowMerge(At(ns, k0 - 2), At(ns, k0 - 1), fill)) && !old(AllowMerge(At(ns, k0 + 1), At(ns, k0 + 2), fill))
      ensures |ns| == |old(ns)| ==> k == k0 && unchanged(this) && unchanged(S)
    {
      hide Sound, Flat, Within, Dropped, Limited, AllowMerge;
      AroundCenter(this, k0);
      var prev, next := center.prev, center.next;
      var prevPrev := if prev != null then prev.prev else null;
      var nextNext := if next != null then next.next else null;
      k := k0;
      ghost var before := ns;
      var target := TryMerge(prevPrev, prev, k - 2, S);
      if target != null {
        Shifted(before, ns, k);
        k := k - 1;
      }
      ghost var between := ns;
      target := TryMerge(next, nextNext, k + 1, S);
      if target != null { Kept(between, ns, k); }
    }

    /** The merges of (prev, center) and of the result with next. */
    method MergeCenter(center: Node, ghost k: nat, ghost S: set<Node>)
      requires Sound() && k < |ns| && center == ns[k] && Within(ns, S)
      modifies this`head, this`tail, this`len, this`count, this`ns, this`parts, S
      ensures Sound() && Flat(parts) == old(Flat(parts)) && count == old(count) && Within(ns, S)
      ensures old(Limited(parts, fill)) ==> Limited(parts, fill)
      ensures |ns| <= |old(ns)|
      ensures |ns| == |old(ns)| <==> !old(AllowMerge(At(ns, k - 1), center, fill)) && !old(AllowMerge(center, At(ns, k + 1), fill))
    {
      hide Sound, Flat, Within, Dropped, Limited, AllowMerge;
      Neighbours(this, k);
      ghost var j: nat := k;
      ghost var before := ns;
      var target := TryMerge(center.prev, center, k - 1, S);
      if target == null {
        target := center;
      } else {
        Fewer(before, ns, k - 1);
        j := k - 1;
      }
      Neighbours(this, j);
      var _ := TryMerge(target, target.next, j, S);
    }

    /** A new, non-empty ziplist for node k, with its count and size. */
    method Refill(node: Node, zl: seq<bytes>, ghost k: nat)
      requires Sound() && k < |ns| && node == ns[k] && zl != []
      modifies this`parts, node`zl, node`count, node`sz, node`blob
      ensures Sound() && node.zl == zl && k < |old(parts)| && parts == old(parts)[k := zl]
    {
      hide Linked, Holds, Filled, Sized;
      PartAt(this, k);
      SetZl(node, zl, ns, parts, k, unsized);
      KeepsFilled(parts, k, zl);
      parts := parts[k := zl];
    }

    /** A value put into the ziplist of node k, as ziplistInsert or ziplistPush do. */
    method InsertIn(node: Node, i: nat, value: bytes, ghost k: nat)
      requires Sound() && k < |ns| && node == ns[k] && i <= |node.zl|
      modifies this`parts, node`zl, node`count, node`sz, node`blob
      ensures Sound() && k < |old(parts)| && i <= |old(parts)[k]| && parts == old(parts)[k := InsertAt(old(parts)[k], i, value)]
    {
      hide Sound;
      PartAt(this, k);
      Refill(node, InsertAt(node.zl, i, value), k);
    }

    /** A node of its own for the value, next to node k.  Only the insertion
        into an empty list does not store its size. */
    method InsertAlone(node: Node?, value: bytes, after: bool, store: bool, ghost k: nat)
      requires Sound() && if node == null then ns == [] && k == 0 else k < |ns| && node == ns[k]
      requires !store ==> node == null
      modifies this`head, this`tail, this`len, this`ns, this`parts, this`unsized, ns`prev, ns`next
      ensures Sound() && var j := if after && node != null then k + 1 else k;
              j <= |old(parts)| && parts == InsertAt(old(parts), j, [value])
      ensures forall n :: n in ns ==> n in old(ns) || fresh(n)
      ensures if store then unsized == old(unsized) else |ns| == 1 && unsized == ns[0] && ns[0].sz == 0
    {
      hide Whole, InsertAt, Sized;
      EqualLengths(this);
      ghost var j := if after && node != null then k + 1 else k;
      var newNode := new Node();
      newNode.Put([value]);
      newNode.count := newNode.count + 1;
      if store {
        newNode.UpdateSz();
      } else {
        unsized := newNode;
      }
      OneSized(newNode, unsized);
      NoneSized(unsized);
      InsertNode(node, newNode, after, k);
      InsertSized(old(ns), j, newNode, unsized);
      if !store { AloneIn(newNode); }
      InsertMembers(old(ns), j, newNode);
    }

    /** _quicklistSplitNode: the new node is not linked yet.  It is cut out of a
        copy of sz bytes; rest is what is left of such a copy, ranges deleted,
        when these are not the bytes of the ziplist. */
    method SplitNode(node: Node, offset: nat, after: bool, rest: seq<bytes>, ghost k: nat) returns (newNode: Node)
      requires Sound() && k < |ns| && node == ns[k] && offset < |node.zl| < U32
      modifies this`parts, node`zl, node`count, node`sz, node`blob
      ensures fresh(newNode) && newNode.prev == null && newNode.next == null && newNode.count == |newNode.zl|
      ensures newNode.sz == newNode.blob >= 11
      ensures Sound() && k < |old(parts)| && offset < |old(parts)[k]|
      ensures newNode.zl == Cut(old(parts)[k], offset, after, old(node.sz == node.blob), rest)
      ensures parts == old(parts)[k := Left(old(parts)[k], offset, after)]
    {
      hide Sound, Z.RangeDeleted;
      PartAt(this, k);
      Ranges(node.zl, offset);
      newNode := new Node();
      var origStart := if after then offset + 1 else 0;
      var origExtent := if after then U32 - 1 else offset;
      var newStart := if after then 0 else offset;
      var newExtent := if after then offset + 1 else U32 - 1;
      var copy := if node.sz == node.blob then Z.RangeDeleted(node.zl, newStart, newExtent) else rest;
      Refill(node, Z.RangeDeleted(node.zl, origStart, origExtent), k);
      newNode.Put(copy);
      newNode.count := |newNode.zl|;
      newNode.UpdateSz();
    }

    /** The full node is split, the value joins the new half, and that is linked. */
    method SplitAndLink(node: Node, offset: nat, value: bytes, after: bool, rest: seq<bytes>, ghost k: nat)
      requires Sound() && k < |ns| && node == ns[k] && offset < |node.zl| < U32
      modifies this`head, this`tail, this`len, this`ns, this`parts, node`zl, node`count, node`sz, node`blob, ns`prev, ns`next
      ensures Sound() && k < |old(parts)| && offset < |old(parts)[k]| && |ns| == |old(ns)| + 1
      ensures node == ns[if after then k else k + 1]
      ensures forall i :: 0 <= i < |ns| ==> ns[i] in old(ns) || fresh(ns[i])
      ensures parts == SplitParts(old(parts), k, offset, value, after, old(node.sz == node.blob), rest)
    {
      hide Whole, Cut, Left, Sized;
      PartAt(this, k);
      var newNode := SplitNode(node, offset, after, rest, k);
      newNode.Put(InsertAt(newNode.zl, if after then 0 else |newNode.zl|, value));
      newNode.count := newNode.count + 1;
      newNode.UpdateSz();
      OneSized(newNode, unsized);
      InsertNode(node, newNode, after, k);
      InsertSized(old(ns), if after then k + 1 else k, newNode, unsized);
    }

    /** The full node is split and the value goes between the halves. */
    method SplitAndInsert(node: Node, offset: nat, value: bytes, after: bool, rest: seq<bytes>, ghost k: nat)
      requires Sound() && k < |ns| && node == ns[k] && offset < |node.zl| < U32
      modifies this`head, this`tail, this`len, this`count, this`ns, this`parts, ns
      ensures Sound() && count == old(count) && k < |old(parts)| && offset < |old(parts)[k]|
      ensures Flat(parts) == Flat(SplitParts(old(parts), k, offset, value, after, old(node.sz == node.blob), rest))
      ensures old(node.sz == node.blob) && old(Limited(parts, fill)) ==> Limited(parts, fill)
      ensures forall n :: n in ns ==> n in old(ns) || fresh(n)
    {
      hide Sound, Flat, InsertAt, Limited, SplitParts;
      ghost var parts0, current := parts, node.sz == node.blob;
      SplitAndLink(node, offset, value, after, rest, k);
      if current && Limited(parts0, fill) { SplitLimit(parts0, k, offset, value, after, rest, fill); }
      ghost var c := if after then k else k + 1;
      ghost var S := set i | 0 <= i < |ns| :: ns[i];
      MergeNodes(node, c, S);
    }

    /** _quicklistInsert: before or after the entry at offset of node k.  Right
        unless the node is split and its size was never stored; then rest, as
        in SplitNode, takes the place of the entries that should move. */
    method Insert(node: Node?, offset: nat, value: bytes, after: bool, rest: seq<bytes>, ghost k: nat)
      requires Valid() && count < U32 - 1
      requires if node == null then ns == [] && k == 0 else k < |ns| && node == ns[k] && offset < node.count
      modifies this`head, this`tail, this`len, this`count, this`ns, this`parts, this`unsized, ns
      ensures Sound() && count == old(count) + 1 && k <= |old(parts)|
      ensures All() == old(Outcome(node, offset, value, after, rest, k))
      ensures old(Intact(node, offset, value, after)) ==>
                && Valid()
                && var p := if node == null then 0 else Start(old(parts), k) + if after then offset + 1 else offset;
                   p <= |old(All())| && All() == InsertAt(old(All()), p, value)
      ensures if node == null then |ns| == 1 && unsized == ns[0] && ns[0].sz == 0 else unsized == old(unsized)
      ensures node != null && old(AllowInsert(node, fill, |value|)) ==>
        && k < |old(parts)| && offset < |old(parts)[k]|
        && parts == old(parts)[k := InsertAt(old(parts)[k], if after then offset + 1 else offset, value)]
      ensures node != null && !old(AllowInsert(node, fill, |value|)) && !after && offset == 0 && k > 0 ==>
        && k < |old(parts)|
        && parts == if old(AllowInsert(ns[k - 1], fill, |value|)) then old(parts)[k - 1 := old(parts)[k - 1] + [value]]
                    else InsertAt(old(parts), k, [value])
      ensures forall n :: n in ns ==> n in old(ns) || fresh(n)
    {
      hide Sound, Flat, InsertAt, Start, Limited, AllowInsert, SplitParts;
      ghost var parts0 := parts;
      if node == null {
        EmptyParts(this);
        InsertAlone(null, value, after, false, 0);
        OneFits(parts0, 0, value, fill);
        AloneFlat(parts0, 0, value, parts);
        StartOfAll(parts0);
        count := count + 1;
        return;
      }
      PartAt(this, k);
      PartSmaller(parts, k);
      Neighbours(this, k);
      var prev, next := node.prev, node.next;
      var full := !AllowInsert(node, fill, |value|);
      var atTail := after && offset == node.count;
      var atHead := !after && offset == 0;
      var fullNext := atTail && !AllowInsert(next, fill, |value|);
      var fullPrev := atHead && !AllowInsert(prev, fill, |value|);
      if !full {
        var i := if after then offset + 1 else offset;
        RoomFor(node, fill, |value|);
        GrownFits(parts0, k, i, value, fill);
        InsertIn(node, i, value, k);
        InFlat(parts0, k, i, value);
      } else if atTail && next != null && !fullNext {
        // No entry has its node's count as offset.
        assert false;
      } else if atHead && prev != null && !fullPrev {
        PartAt(this, k - 1);
        RoomFor(prev, fill, |value|);
        GrownFits(parts0, k - 1, |prev.zl|, value, fill);
        AtEnds(parts0[k - 1], value);
        InsertIn(prev, |prev.zl|, value, k - 1);
        PrevFlat(parts0, k, value);
      } else if (atTail && next != null && fullNext) || (atHead && prev != null && fullPrev) {
        InsertAlone(node, value, after, true, k);
        OneFits(parts0, k, value, fill);
        AloneFlat(parts0, k, value, parts);
      } else {
        ghost var current := node.sz == node.blob;
        SplitAndInsert(node, offset, value, after, rest, k);
        if current { SplitFlat(parts0, k, offset, value, after, rest); }
      }
      count := count + 1;
    }

    /** The insertion does not split a node whose size was never stored. */
    ghost predicate Intact(node: Node?, offset: nat, value: bytes, after: bool)
      reads this`fill, node
    {
      node == null || AllowInsert(node, fill, |value|) || (!after && offset == 0 && node.prev != null) || node.sz == node.blob
    }

    /** All elements after the insertion, in terms of the state before. */
    ghost function Outcome(node: Node?, offset: nat, value: bytes, after: bool, rest: seq<bytes>, k: nat): seq<bytes>
      requires Valid()
      requires if node == null then ns == [] && k == 0 else k < |ns| && node == ns[k] && offset < node.count
      reads this, ns
    {
      PlaceFits(this, node, offset, k);
      if node == null then InsertAt(All(), 0, value) else Placed(parts, k, offset, value, after, Intact(node, offset, value, after), rest)
    }

    /** quicklistPushHead and quicklistPushTail: true when a node was added. */
    method Push(value: bytes, front: bool) returns (added: bool)
      requires Valid()
      modifies this`head, this`tail, this`len, this`count, this`ns, this`parts, this`unsized, ns
      ensures unsized == old(unsized)
      ensures Valid() && All() == if front then [value] + old(All()) else old(All()) + [value]
      ensures added <==> !old(AllowInsert(if front then head else tail, fill, |value|))
      ensures !added ==> old(parts) != []
      ensures parts == if added then (if front then [[value]] + old(parts) else old(parts) + [[value]])
                       else if front then old(parts)[0 := [value] + old(parts)[0]]
                       else old(parts)[|old(parts)| - 1 := old(parts)[|old(parts)| - 1] + [value]]
      ensures if added then |ns| == |old(ns)| + 1 else ns == old(ns)
      ensures forall n :: n in ns ==> n in old(ns) || fresh(n)
    {
      hide Sound, Flat, InsertAt, Start, Limited, AllowInsert;
      ghost var parts0 := parts;
      EqualLengths(this);
      EndNodes(this);
      var node := if front then head else tail;
      ghost var k := if front || ns == [] then 0 else |ns| - 1;
      added := !AllowInsert(node, fill, |value|);
      if !added {
        RoomFor(node, fill, |value|);
        PartAt(this, k);
        var i := if front then 0 else |node.zl|;
        GrownFits(parts0, k, i, value, fill);
        AtEnds(parts0[k], value);
        InsertIn(node, i, value, k);
        InFlat(parts0, k, i, value);
      } else {
        AtEnds(parts0, [value]);
        InsertAlone(node, value, !front, true, k);
        OneFits(parts0, if front then 0 else |parts0|, value, fill);
        InsertedLength(parts0, if front then 0 else |parts0|, [value]);
        EqualLengths(this);
        AloneFlat(parts0, if front then 0 else |parts0|, value, parts);
      }
      EndPlaces(parts0, value);
      count := count + 1;
    }

    /** quicklistDelIndex: the entry at offset of node k; true when the node is gone. */
    method DelIndex(node: Node, offset: nat, ghost k: nat) returns (gone: bool)
      requires Valid() && k < |ns| && node == ns[k] && offset < node.count
      modifies this`head, this`tail, this`len, this`count, this`ns, this`parts, ns
      ensures Valid() && k <= |old(parts)|
      ensures var p := Start(old(parts), k) + offset;
              p < |old(All())| && All() == RemoveAt(old(All()), p)
      ensures (gone <==> old(node.count) == 1) && |ns| == |old(ns)| - if gone then 1 else 0
      ensures forall n :: n in ns ==> n in old(ns)
    {
      hide Sound, Flat, RemoveAt, Start, Limited;
      ghost var parts0 := parts;
      PartAt(this, k);
      var zl := RemoveAt(node.zl, offset);
      OutOfFlat(parts, k, offset);
      RemovedLength(node.zl, offset);
      RemovedLength(parts, k);
      EqualLengths(this);
      if |zl| == 0 {
        LimitedRemove(parts, k, fill);
        DropLast(node, k);
      } else {
        LimitedSet(parts, k, zl, fill);
        Refill(node, zl, k);
      }
      EqualLengths(this);
      gone := |zl| == 0;
      count := count - 1;
    }

    /** The last entry of a node taken out of its ziplist. */
    method Empty(node: Node, ghost k: nat)
      requires Sound() && k < |ns| && node == ns[k]
      modifies this`parts, node`zl, node`count, node`sz, node`blob
      ensures Shape() && Sized(ns, unsized) && node.count == 0 && k < |old(parts)| && parts == old(parts)[k := []]
    {
      hide Linked, Holds, Filled, Sized;
      PartAt(this, k);
      SetZl(node, [], ns, parts, k, unsized);
      parts := parts[k := []];
    }

    /** The emptied node goes. */
    method DropLast(node: Node, ghost k: nat)
      requires Sound() && k < |ns| && node == ns[k]
      modifies this`head, this`tail, this`len, this`count, this`ns, this`parts, ns
      ensures Sound() && count == old(count) && k < |old(parts)| && parts == RemoveAt(old(parts), k)
      ensures forall n :: n in ns ==> n in old(ns)
    {
      ghost var parts0 := parts;
      WereFilled(this);
      hide Shape, RemoveAt, Filled, Sized;
      EqualLengths(this);
      Empty(node, k);
      DelEmpty(node, k);
      RemoveMembers(old(ns), k);
      StillFilled(this, parts0, k);
    }

    /** quicklistIndex: element idx from the head, or counted from the tail when
        negative; the offset has the sign of idx. */
    method Index(idx: int) returns (found: bool, node: Node?, offset: int, ghost k: nat)
      requires Valid()
      ensures found <==> 0 - count <= idx < count
      ensures found ==>
        && k < |ns| && k <= |parts| && node == ns[k] && 0 - node.count <= offset < node.count == |node.zl| && (offset >= 0 <==> idx >= 0)
        && Start(parts, k) + (if offset >= 0 then offset else node.count + offset) == (if idx >= 0 then idx else count + idx)
        && node.zl[if offset >= 0 then offset else node.count + offset] == All()[if idx >= 0 then idx else count + idx]
    {
      hide Sound, Flat, Start;
      var forward := idx >= 0;
      var index: nat := if forward then idx else -idx - 1;
      found, node, offset, k := false, null, 0, 0;
      if index >= count { return; }
      EqualLengths(this);
      EndNodes(this);
      Bounds(parts);
      var n := if forward then head else tail;
      var accum: int := 0;
      ghost var j: int := if forward then 0 else |ns| - 1;
      while n != null
        invariant n == At(ns, j) && (if forward then 0 <= j else j < |ns|) && -1 <= j <= |ns| && 0 <= accum <= index
        invariant accum == if forward then Start(parts, j) else count - Start(parts, j + 1)
        decreases if forward then |ns| - j else j + 1
      {
        PartAt(this, j);
        Neighbours(this, j);
        StartNext(parts, j);
        if accum + n.count > index {
          offset := if forward then index - accum else accum - 1 - index;
          InPart(parts, j, if offset >= 0 then offset else n.count + offset);
          return true, n, offset, j;
        }
        accum := accum + n.count;
        n := if forward then n.next else n.prev;
        j := if forward then j + 1 else j - 1;
      }
      assert false;
    }
  }

  lemma OneSized(x: Node, unsized: Node?)
    requires x.blob >= 11 && (x.sz == x.blob || (x == unsized && x.sz == 0))
    ensures Sized([x], unsized)
  {}

  lemma NoneSized(unsized: Node?)
    ensures Sized([], unsized)
  {}

  lemma AloneIn(x: Node)
    ensures InsertAt([], 0, x) == [x]
  {}

  lemma InsertMembers<T>(s: seq<T>, j: nat, x: T)
    requires j <= |s|
    ensures forall n :: n in InsertAt(s, j, x) ==> n in s || n == x
  {}

  lemma PartAt(q: Quicklist, k: nat)
    requires q.Sound() && k < |q.ns|
    ensures Distinct(q.ns) && |q.parts| == |q.ns| && q.ns[k].zl == q.parts[k] && q.ns[k].count == |q.parts[k]|
  {}

  lemma EqualLengths(q: Quicklist)
    requires q.Sound()
    ensures |q.parts| == |q.ns|
  {}

  lemma EmptyParts(q: Quicklist)
    requires q.Sound() && q.ns == []
    ensures q.parts == []
  {}

  lemma KeepsFilled(parts: seq<seq<bytes>>, k: nat, zl: seq<bytes>)
    requires Filled(parts) && k < |parts| && zl != []
    ensures Filled(parts[k := zl])
  {}

  /** The ranges that a split deletes: -1 as a 32-bit length means to the end. */
  lemma Ranges(zl: seq<bytes>, offset: nat)
    requires offset < |zl| < U32
    ensures Z.RangeDeleted(zl, offset + 1, U32 - 1) == zl[..offset + 1] && Z.RangeDeleted(zl, 0, offset + 1) == zl[offset + 1..]
    ensures Z.RangeDeleted(zl, 0, offset) == zl[offset..] && Z.RangeDeleted(zl, offset, U32 - 1) == zl[..offset]
  {}

  ghost predicate Within(ns: seq<Node>, S: set<Node>) {
    forall i :: 0 <= i < |ns| ==> ns[i] in S
  }

  /** One of the nodes k and k + 1 is gone. */
  ghost predicate Dropped(ns: seq<Node>, ms: seq<Node>, k: nat) {
    k + 1 < |ns| && (ms == RemoveAt(ns, k) || ms == RemoveAt(ns, k + 1))
  }

  lemma Neighbours(q: Quicklist, k: nat)
    requires q.Sound() && k < |q.ns|
    ensures q.ns[k].prev == At(q.ns, k - 1) && q.ns[k].next == At(q.ns, k + 1)
  {}

  /** The nodes that _quicklistMergeNodes looks up first. */
  lemma AroundCenter(q: Quicklist, k: nat)
    requires q.Sound() && k < |q.ns|
    ensures q.ns[k].prev == At(q.ns, k - 1) && q.ns[k].next == At(q.ns, k + 1)
    ensures k > 0 ==> q.ns[k - 1].prev == At(q.ns, k - 2)
    ensures k + 1 < |q.ns| ==> q.ns[k + 1].next == At(q.ns, k + 2)
  {}

  lemma Subset(ns: seq<Node>, ms: seq<Node>, k: nat, S: set<Node>)
    requires Dropped(ns, ms, k) && Within(ns, S)
    ensures Within(ms, S)
  {}

  lemma Shifted(ns: seq<Node>, ms: seq<Node>, k: nat)
    requires 2 <= k < |ns| && Dropped(ns, ms, k - 2)
    ensures |ms| == |ns| - 1 && ms[k - 1] == ns[k] && At(ms, k) == At(ns, k + 1) && At(ms, k + 1) == At(ns, k + 2)
  {}

  lemma Kept(ns: seq<Node>, ms: seq<Node>, k: nat)
    requires k + 2 < |ns| && Dropped(ns, ms, k + 1)
    ensures k < |ms| && ms[k] == ns[k]
  {}

  lemma Fewer(ns: seq<Node>, ms: seq<Node>, k: nat)
    requires Dropped(ns, ms, k)
    ensures |ms| == |ns| - 1
  {}

  lemma NodeEnds(ns: seq<Node>, k: nat)
    requires Linked(ns) && k < |ns|
    ensures (At(ns, 0) == ns[k] <==> k == 0) && (At(ns, |ns| - 1) == ns[k] <==> k == |ns| - 1)
  {}

  lemma InsertSized(ns: seq<Node>, j: nat, x: Node, unsized: Node?)
    requires Sized(ns, unsized) && Sized([x], unsized) && j <= |ns|
    ensures Sized(InsertAt(ns, j, x), unsized)
  {
    assert [x][0] == x;
  }

  lemma RemoveSized(ns: seq<Node>, k: nat, unsized: Node?)
    requires Sized(ns, unsized) && k < |ns|
    ensures Sized(RemoveAt(ns, k), unsized)
  {}

  lemma LinkedOne(x: Node)
    requires x.prev == null && x.next == null
    ensures Linked(InsertAt([], 0, x))
  {}

  lemma SameLength(ns: seq<Node>, parts: seq<seq<bytes>>)
    requires Holds(ns, parts)
    ensures |parts| == |ns|
  {}

  lemma InsertHolds(ns: seq<Node>, parts: seq<seq<bytes>>, x: Node, j: nat)
    requires Holds(ns, parts) && j <= |ns| && x.count == |x.zl|
    ensures |parts| == |ns| && Holds(InsertAt(ns, j, x), InsertAt(parts, j, x.zl))
  {
    hide InsertAt;
  }

  lemma InsertFilled(parts: seq<seq<bytes>>, j: nat, p: seq<bytes>)
    requires Filled(parts) && j <= |parts| && p != []
    ensures Filled(InsertAt(parts, j, p))
  {
    hide InsertAt;
  }

  method LinkNext(oldNode: Node?, x: Node, after: bool, ghost ns: seq<Node>, ghost k: nat, ghost parts: seq<seq<bytes>>)
    requires Linked(ns) && Holds(ns, parts) && x.count == |x.zl| && x !in ns && x.prev == null && x.next == null
    requires if oldNode == null then ns == [] && k == 0 else k < |ns| && oldNode == ns[k]
    modifies x`prev, x`next, ns`prev, ns`next
    ensures |parts| == |ns| && var j := if after && oldNode != null then k + 1 else k;
            Linked(InsertAt(ns, j, x)) && Holds(InsertAt(ns, j, x), InsertAt(parts, j, x.zl))
  {
    hide Linked, InsertAt, Holds;
    InsertHolds(ns, parts, x, if after && oldNode != null then k + 1 else k);
    if oldNode != null { LinkIn(oldNode, x, after, ns, k); } else { LinkedOne(x); }
  }

  /** What the head and tail tests of __quicklistInsertNode amount to. */
  lemma NewEnds(ns: seq<Node>, k: nat, oldNode: Node?, x: Node, after: bool)
    requires Linked(ns) && if oldNode == null then ns == [] && k == 0 else k < |ns| && oldNode == ns[k]
    ensures var j := if after && oldNode != null then k + 1 else k;
            var ms := InsertAt(ns, j, x);
            && At(ms, 0) == (if |ns| == 0 || (!after && At(ns, 0) == oldNode) then x else At(ns, 0))
            && At(ms, |ms| - 1) == if |ns| == 0 || (after && At(ns, |ns| - 1) == oldNode) then x else At(ns, |ns| - 1)
  {
    hide InsertAt;
    if oldNode != null { NodeEnds(ns, k); }
  }

  lemma RemoveHolds(ns: seq<Node>, parts: seq<seq<bytes>>, k: nat)
    requires Holds(ns, parts) && k < |ns|
    ensures |parts| == |ns| && Holds(RemoveAt(ns, k), RemoveAt(parts, k))
  {
    hide RemoveAt;
  }

  lemma RemoveEnds(ns: seq<Node>, k: nat)
    requires k < |ns|
    ensures var ms := RemoveAt(ns, k);
            && At(ms, 0) == (if k == 0 then At(ns, 1) else At(ns, 0))
            && At(ms, |ms| - 1) == if k == |ns| - 1 then At(ns, k - 1) else At(ns, |ns| - 1)
  {}

  lemma Pair(ns: seq<Node>, parts: seq<seq<bytes>>, k: nat)
    requires Linked(ns) && Holds(ns, parts) && k + 1 < |ns|
    ensures Distinct(ns) && |parts| == |ns| && ns[k] != ns[k + 1]
    ensures ns[k].zl == parts[k] && ns[k + 1].zl == parts[k + 1]
    ensures ns[k].count == |parts[k]| && ns[k + 1].count == |parts[k + 1]|
  {}

  lemma Emptied(ns: seq<Node>, parts: seq<seq<bytes>>, k: nat)
    requires Holds(ns, parts) && k < |ns| && k < |parts| && parts[k] == []
    ensures ns[k].count == 0
  {}

  lemma Survivor(ns: seq<Node>, k: nat, nk: nat)
    requires k + 1 < |ns| && (nk == k || nk == k + 1)
    ensures RemoveAt(ns, nk)[k] == ns[if nk == k then k + 1 else k]
  {}

  /** Merging two neighbours keeps the elements in order. */
  lemma MergedParts(parts: seq<seq<bytes>>, k: nat, kk: nat, nk: nat, merged: seq<bytes>)
    requires k + 1 < |parts| && merged == parts[k] + parts[k + 1] && Filled(parts)
    requires (kk == k && nk == k + 1) || (kk == k + 1 && nk == k)
    ensures var r := RemoveAt(parts[kk := merged][nk := []], nk);
            Filled(r) && Flat(r) == Flat(parts)
  {
    hide Flat;
    var r := RemoveAt(parts[kk := merged][nk := []], nk);
    assert r == parts[..k] + [merged] + parts[k + 2..];
    FlatSplice(parts, k, k + 2, [merged]);
    FlatAround(parts, k, k + 2);
    assert parts[k..k + 2] == [parts[k]] + [parts[k + 1]];
    FlatAppend([parts[k]], [parts[k + 1]]);
    FlatOne(parts[k]);
    FlatOne(parts[k + 1]);
    FlatOne(merged);
  }

  lemma MergedLimit(parts: seq<seq<bytes>>, k: nat, kk: nat, nk: nat, merged: seq<bytes>, fill: int)
    requires k + 1 < |parts| && merged == parts[k] + parts[k + 1]
    requires (kk == k && nk == k + 1) || (kk == k + 1 && nk == k)
    ensures Limited(parts, fill) && (fill >= 0 ==> |parts[k]| + |parts[k + 1]| <= fill) ==>
              Limited(RemoveAt(parts[kk := merged][nk := []], nk), fill)
  {
    assert RemoveAt(parts[kk := merged][nk := []], nk) == parts[..k] + [merged] + parts[k + 2..];
  }

  lemma LimitedSet(parts: seq<seq<bytes>>, k: nat, zl: seq<bytes>, fill: int)
    requires k < |parts| && Limited(parts, fill) && (fill >= 0 ==> |zl| <= fill || |zl| <= |parts[k]|)
    ensures Limited(parts[k := zl], fill)
  {}

  lemma LimitedInsert(parts: seq<seq<bytes>>, j: nat, p: seq<bytes>, fill: int)
    requires j <= |parts| && Limited(parts, fill) && (fill >= 0 ==> |p| <= if fill < 1 then 1 else fill)
    ensures Limited(InsertAt(parts, j, p), fill)
  {}

  lemma LimitedRemove(parts: seq<seq<bytes>>, k: nat, fill: int)
    requires k < |parts| && Limited(parts, fill)
    ensures Limited(RemoveAt(parts, k), fill)
  {}

  lemma SplitLimit(parts: seq<seq<bytes>>, k: nat, offset: nat, value: bytes, after: bool, rest: seq<bytes>, fill: int)
    requires k < |parts| && offset < |parts[k]| && Limited(parts, fill)
    ensures Limited(SplitParts(parts, k, offset, value, after, true, rest), fill)
  {
    var zl := parts[k];
    var left := if after then zl[..offset + 1] else zl[offset..];
    var right := if after then InsertAt(zl[offset + 1..], 0, value) else InsertAt(zl[..offset], offset, value);
    assert |left| <= |zl| && |right| <= |zl|;
    LimitedSet(parts, k, left, fill);
    LimitedInsert(parts[k := left], if after then k + 1 else k, right, fill);
  }

  lemma RemovedLength<T>(s: seq<T>, k: nat)
    requires k < |s|
    ensures |RemoveAt(s, k)| == |s| - 1
  {}

  lemma InsertedLength<T>(s: seq<T>, j: nat, x: T)
    requires j <= |s|
    ensures |InsertAt(s, j, x)| == |s| + 1
  {}

  lemma OneFits(parts: seq<seq<bytes>>, j: nat, value: bytes, fill: int)
    requires j <= |parts| && Limited(parts, fill)
    ensures Limited(InsertAt(parts, j, [value]), fill)
  {
    LimitedInsert(parts, j, [value], fill);
  }

  lemma GrownFits(parts: seq<seq<bytes>>, k: nat, i: nat, value: bytes, fill: int)
    requires k < |parts| && i <= |parts[k]| && Limited(parts, fill) && (fill >= 0 ==> |parts[k]| + 1 <= fill)
    ensures Limited(parts[k := InsertAt(parts[k], i, value)], fill)
  {
    LimitedSet(parts, k, InsertAt(parts[k], i, value), fill);
  }

  lemma RoomFor(node: Node?, fill: int, sz: nat)
    requires AllowInsert(node, fill, sz)
    ensures node != null && (fill >= 0 ==> node.count + 1 <= fill)
  {}

  /** The halves with the value between them, when all of the node was copied. */
  lemma SplitFlat(parts: seq<seq<bytes>>, k: nat, offset: nat, value: bytes, after: bool, rest: seq<bytes>)
    requires k < |parts| && offset < |parts[k]|
    ensures var p := Start(parts, k) + if after then offset + 1 else offset;
            p <= |Flat(parts)| && Flat(SplitParts(parts, k, offset, value, after, true, rest)) == InsertAt(Flat(parts), p, value)
  {
    hide Flat, InsertAt, Start;
    var zl := parts[k];
    var i := if after then offset + 1 else offset;
    var mid := if after then [zl[..i], [value] + zl[i..]] else [zl[..i] + [value], zl[i..]];
    Halves(zl, i, value);
    TwoForOne(parts, k, mid[0], mid[1], if after then k + 1 else k);
    assert parts[k..k + 1] == [zl];
    FlatOne(zl);
    FlatTwo(mid[0], mid[1]);
    InsertedFlat(parts, k, k + 1, mid, i, value);
  }

  /** A split with the value is right for whatever an incomplete copy leaves if
      and only if all of the node was copied. */
  lemma SplitRightIff(parts: seq<seq<bytes>>, k: nat, offset: nat, value: bytes, after: bool, current: bool)
    requires k < |parts| && offset < |parts[k]|
    ensures var p := Start(parts, k) + if after then offset + 1 else offset;
            p <= |Flat(parts)| &&
            ((forall rest :: Flat(SplitParts(parts, k, offset, value, after, current, rest)) == InsertAt(Flat(parts), p, value))
             <==> current)
  {
    hide Flat, Start, SplitParts, InsertAt;
    SplitFlat(parts, k, offset, value, after, []);
    if current {
      forall rest ensures SplitParts(parts, k, offset, value, after, current, rest) == SplitParts(parts, k, offset, value, after, true, []) {
        CopiedWhole(parts, k, offset, value, after, rest);
      }
    } else {
      var p := Start(parts, k) + if after then offset + 1 else offset;
      var r0, r1 := SplitParts(parts, k, offset, value, after, false, []), SplitParts(parts, k, offset, value, after, false, [value]);
      SplitLength(parts, k, offset, value, after, []);
      SplitLength(parts, k, offset, value, after, [value]);
      assert Flat(r0) != Flat(r1);
    }
  }

  lemma CopiedWhole(parts: seq<seq<bytes>>, k: nat, offset: nat, value: bytes, after: bool, rest: seq<bytes>)
    requires k < |parts| && offset < |parts[k]|
    ensures SplitParts(parts, k, offset, value, after, true, rest) == SplitParts(parts, k, offset, value, after, true, [])
  {}

  lemma SplitLength(parts: seq<seq<bytes>>, k: nat, offset: nat, value: bytes, after: bool, rest: seq<bytes>)
    requires k < |parts| && offset < |parts[k]|
    ensures |Flat(SplitParts(parts, k, offset, value, after, false, rest))| ==
            |Flat(parts[..k])| + |Left(parts[k], offset, after)| + |rest| + 1 + |Flat(parts[k + 1..])|
  {
    hide Flat;
    var left := Left(parts[k], offset, after);
    var right := InsertAt(rest, if after then 0 else |rest|, value);
    var mid := if after then [left, right] else [right, left];
    TwoForOne(parts, k, mid[0], mid[1], if after then k + 1 else k);
    FlatTwo(mid[0], mid[1]);
    FlatSplice(parts, k, k + 1, mid);
  }

  lemma Halves(zl: seq<bytes>, i: nat, value: bytes)
    requires i <= |zl|
    ensures InsertAt(zl[i..], 0, value) == [value] + zl[i..] && InsertAt(zl[..i], i, value) == zl[..i] + [value]
    ensures zl[..i] + ([value] + zl[i..]) == InsertAt(zl, i, value) && (zl[..i] + [value]) + zl[i..] == InsertAt(zl, i, value)
  {}

  lemma TwoForOne<T>(s: seq<T>, k: nat, a: T, b: T, j: nat)
    requires k < |s| && k <= j <= k + 1
    ensures InsertAt(s[k := if j == k then b else a], j, if j == k then a else b) == s[..k] + [a, b] + s[k + 1..]
  {}

  lemma FlatTwo(a: seq<bytes>, b: seq<bytes>)
    ensures Flat([a, b]) == a + b
  {
    assert [a, b] == [a] + [b];
    FlatAppend([a], [b]);
    FlatOne(a);
    FlatOne(b);
  }

  lemma InFlat(parts: seq<seq<bytes>>, k: nat, i: nat, value: bytes)
    requires k < |parts| && i <= |parts[k]|
    ensures Start(parts, k) + i <= |Flat(parts)|
    ensures Flat(parts[k := InsertAt(parts[k], i, value)]) == InsertAt(Flat(parts), Start(parts, k) + i, value)
  {
    hide Flat, InsertAt;
    var p := InsertAt(parts[k], i, value);
    assert parts[k := p] == parts[..k] + [p] + parts[k + 1..];
    assert parts[k..k + 1] == [parts[k]];
    FlatOne(parts[k]);
    FlatOne(p);
    InsertedFlat(parts, k, k + 1, [p], i, value);
  }

  /** The end of node k - 1 is the place before node k. */
  lemma PrevFlat(parts: seq<seq<bytes>>, k: nat, value: bytes)
    requires 0 < k < |parts|
    ensures var q := InsertAt(parts[k - 1], |parts[k - 1]|, value);
            Start(parts, k) <= |Flat(parts)| && Flat(parts[k - 1 := q]) == InsertAt(Flat(parts), Start(parts, k), value)
  {
    hide Flat, InsertAt;
    InFlat(parts, k - 1, |parts[k - 1]|, value);
    assert parts[..k] == parts[..k - 1] + [parts[k - 1]];
    FlatAppend(parts[..k - 1], [parts[k - 1]]);
    FlatOne(parts[k - 1]);
  }

  lemma AloneFlat(parts: seq<seq<bytes>>, k: nat, value: bytes, now: seq<seq<bytes>>)
    requires k <= |parts| && now == InsertAt(parts, k, [value])
    ensures Start(parts, k) <= |Flat(parts)| && Flat(now) == InsertAt(Flat(parts), Start(parts, k), value)
  {
    hide Flat;
    assert parts[k..k] == [];
    EmptyFlat();
    FlatOne([value]);
    assert now == parts[..k] + [[value]] + parts[k..];
    assert [value] == InsertAt([], 0, value);
    InsertedFlat(parts, k, k, [[value]], 0, value);
  }

  lemma AtEnds<T>(s: seq<T>, x: T)
    ensures InsertAt(s, 0, x) == [x] + s && InsertAt(s, |s|, x) == s + [x]
  {}

  lemma StartOfAll(parts: seq<seq<bytes>>)
    ensures Start(parts, 0) == 0
  {}

  lemma EmptyFlat()
    ensures Flat([]) == []
  {}

  lemma PartSmaller(parts: seq<seq<bytes>>, k: nat)
    requires k < |parts|
    ensures |parts[k]| <= |Flat(parts)|
  {
    hide Flat;
    FlatAround(parts, k, k + 1);
    assert parts[k..k + 1] == [parts[k]];
    FlatOne(parts[k]);
  }

  lemma EndNodes(q: Quicklist)
    requires q.Sound()
    ensures q.head == At(q.ns, 0) && q.tail == At(q.ns, |q.ns| - 1)
  {}

  lemma EndPlaces(parts: seq<seq<bytes>>, value: bytes)
    ensures Start(parts, 0) == 0 && Start(parts, |parts|) == |Flat(parts)|
    ensures InsertAt(Flat(parts), 0, value) == [value] + Flat(parts)
    ensures InsertAt(Flat(parts), |Flat(parts)|, value) == Flat(parts) + [value]
    ensures parts != [] ==> Start(parts, |parts| - 1) + |parts[|parts| - 1]| == |Flat(parts)|
  {
    hide Flat;
    Bounds(parts);
    if parts != [] { StartNext(parts, |parts| - 1); }
  }

  lemma Bounds(parts: seq<seq<bytes>>)
    ensures Start(parts, 0) == 0 && Start(parts, |parts|) == |Flat(parts)|
  {
    assert parts[..|parts|] == parts;
  }

  lemma StartNext(parts: seq<seq<bytes>>, k: nat)
    requires k < |parts|
    ensures Start(parts, k + 1) == Start(parts, k) + |parts[k]|
  {
    hide Flat;
    assert parts[..k + 1] == parts[..k] + [parts[k]];
    FlatAppend(parts[..k], [parts[k]]);
    FlatOne(parts[k]);
  }

  lemma InPart(parts: seq<seq<bytes>>, k: nat, i: nat)
    requires k < |parts| && i < |parts[k]|
    ensures Start(parts, k) + i < |Flat(parts)| && Flat(parts)[Start(parts, k) + i] == parts[k][i]
  {
    hide Flat;
    FlatAround(parts, k, k + 1);
    assert parts[k..k + 1] == [parts[k]];
    FlatOne(parts[k]);
  }

  /** An element taken out of node k, with the node when it was the last one. */
  lemma OutOfFlat(parts: seq<seq<bytes>>, k: nat, i: nat)
    requires k < |parts| && i < |parts[k]|
    ensures Start(parts, k) + i < |Flat(parts)|
    ensures Flat(parts[k := RemoveAt(parts[k], i)]) == RemoveAt(Flat(parts), Start(parts, k) + i)
    ensures |parts[k]| == 1 ==> Flat(RemoveAt(parts, k)) == RemoveAt(Flat(parts), Start(parts, k) + i)
  {
    hide Flat;
    var p := RemoveAt(parts[k], i);
    FlatAround(parts, k, k + 1);
    FlatOne(parts[k]);
    FlatOne(p);
    assert parts[k..k + 1] == [parts[k]];
    assert parts[k := p] == parts[..k] + [p] + parts[k + 1..];
    FlatSplice(parts, k, k + 1, [p]);
    RemoveMiddle(Flat(parts[..k]), parts[k], Flat(parts[k + 1..]), i);
    if |parts[k]| == 1 {
      EmptyFlat();
      FlatSplice(parts, k, k + 1, []);
      assert parts[..k] + [] + parts[k + 1..] == RemoveAt(parts, k);
    }
  }

  lemma RemoveMembers<T>(s: seq<T>, k: nat)
    requires k < |s|
    ensures forall n :: n in RemoveAt(s, k) ==> n in s
  {}

  lemma RemoveMiddle(a: seq<bytes>, b: seq<bytes>, c: seq<bytes>, i: nat)
    requires i < |b|
    ensures a + RemoveAt(b, i) + c == RemoveAt(a + b + c, |a| + i)
  {}

  lemma WereFilled(q: Quicklist)
    requires q.Sound()
    ensures Filled(q.parts)
  {}

  lemma StillFilled(q: Quicklist, parts0: seq<seq<bytes>>, k: nat)
    requires q.Shape() && Sized(q.ns, q.unsized) && k < |parts0| && Filled(parts0) && q.parts == RemoveAt(parts0[k := []], k)
    ensures q.Sound() && q.parts == RemoveAt(parts0, k)
  {}

  // -------------------------------------------------------------- whole lists

  lemma PlaceFits(q: Quicklist, node: Node?, offset: nat, k: nat)
    requires q.Valid() && if node == null then q.ns == [] && k == 0 else k < |q.ns| && node == q.ns[k] && offset < node.count
    ensures k <= |q.parts| && (node != null ==> k < |q.parts| && offset < |q.parts[k]| && Start(q.parts, k) + offset < |q.All()|)
  {
    hide Flat, Start;
    if node != null { InPart(q.parts, k, offset); }
  }

  /** All elements after an insertion next to an entry. */
  ghost function Placed(parts: seq<seq<bytes>>, k: nat, offset: nat, value: bytes, after: bool, intact: bool, rest: seq<bytes>): seq<bytes>
    requires k < |parts| && offset < |parts[k]|
  {
    InPart(parts, k, offset);
    if intact then InsertAt(Flat(parts), Start(parts, k) + if after then offset + 1 else offset, value)
    else Flat(SplitParts(parts, k, offset, value, after, false, rest))
  }

  lemma BadRest(parts: seq<seq<bytes>>, k: nat, offset: nat, value: bytes, after: bool) returns (rest: seq<bytes>)
    requires k < |parts| && offset < |parts[k]|
    ensures var p := Start(parts, k) + if after then offset + 1 else offset;
            p <= |Flat(parts)| && Placed(parts, k, offset, value, after, false, rest) != InsertAt(Flat(parts), p, value)
  {
    SplitRightIff(parts, k, offset, value, after, false);
    hide Flat, Start, SplitParts, InsertAt;
    var p := Start(parts, k) + if after then offset + 1 else offset;
    rest :| Flat(SplitParts(parts, k, offset, value, after, false, rest)) != InsertAt(Flat(parts), p, value);
  }

  lemma OutcomeIs(q: Quicklist, k: nat, offset: nat, value: bytes, after: bool, rest: seq<bytes>)
    requires q.Valid() && k < |q.ns| && offset < q.ns[k].count
    ensures k < |q.parts| && offset < |q.parts[k]|
    ensures q.Outcome(q.ns[k], offset, value, after, rest, k) ==
            Placed(q.parts, k, offset, value, after, q.Intact(q.ns[k], offset, value, after), rest)
  {
    PlaceFits(q, q.ns[k], offset, k);
    hide Flat, Start, InsertAt, Placed, Quicklist.Valid, Quicklist.Intact;
  }

  /** Whatever an incomplete copy leaves, the value stands at its place. */
  ghost predicate AlwaysRight(q: Quicklist, k: nat, offset: nat, value: bytes, after: bool)
    requires q.Valid() && k < |q.ns| && offset < q.ns[k].count
    reads q, q.ns
  {
    PlaceFits(q, q.ns[k], offset, k);
    forall rest :: q.Outcome(q.ns[k], offset, value, after, rest, k) ==
                   InsertAt(q.All(), Start(q.parts, k) + if after then offset + 1 else offset, value)
  }

  lemma IntactIsRight(q: Quicklist, k: nat, offset: nat, value: bytes, after: bool)
    requires q.Valid() && k < |q.ns| && offset < q.ns[k].count && q.Intact(q.ns[k], offset, value, after)
    ensures AlwaysRight(q, k, offset, value, after)
  {
    PlaceFits(q, q.ns[k], offset, k);
    hide Flat, Start, InsertAt, Quicklist.Valid, Quicklist.Intact, Quicklist.Outcome;
    forall rest: seq<bytes>
      ensures q.Outcome(q.ns[k], offset, value, after, rest, k) ==
              InsertAt(q.All(), Start(q.parts, k) + if after then offset + 1 else offset, value)
    {
      OutcomeIs(q, k, offset, value, after, rest);
    }
  }

  lemma OtherwiseWrong(q: Quicklist, k: nat, offset: nat, value: bytes, after: bool)
    requires q.Valid() && k < |q.ns| && offset < q.ns[k].count && !q.Intact(q.ns[k], offset, value, after)
    ensures !AlwaysRight(q, k, offset, value, after)
  {
    PlaceFits(q, q.ns[k], offset, k);
    hide Flat, Start, InsertAt, Placed, Quicklist.Valid, Quicklist.Intact, Quicklist.Outcome;
    var rest := BadRest(q.parts, k, offset, value, after);
    OutcomeIs(q, k, offset, value, after, rest);
  }

  /** An insertion is right for sure if and only if it splits no node whose size
      was never stored. */
  lemma InsertRightIff(q: Quicklist, k: nat, offset: nat, value: bytes, after: bool)
    requires q.Valid() && k < |q.ns| && offset < q.ns[k].count
    ensures AlwaysRight(q, k, offset, value, after) <==> q.Intact(q.ns[k], offset, value, after)
  {
    hide AlwaysRight;
    if q.Intact(q.ns[k], offset, value, after) {
      IntactIsRight(q, k, offset, value, after);
    } else {
      OtherwiseWrong(q, k, offset, value, after);
    }
  }

  /** Insertion next to an entry is always right in a list in which every size
      is stored, or in another node than the one without. */
  lemma SizedIsIntact(q: Quicklist, k: nat, offset: nat, value: bytes, after: bool)
    requires q.Sound() && k < |q.ns| && q.ns[k] != q.unsized
    ensures q.Intact(q.ns[k], offset, value, after)
  {}

  /** quicklistCreateFromZiplist: the values of a ziplist pushed one by one. */
  method CreateFromValues(fill: int, values: seq<bytes>) returns (q: Quicklist)
    ensures q.Valid() && q.All() == values && q.unsized == null && q.fill == fill && fresh(q) && fresh(q.ns)
  {
    hide Quicklist.Sound, Flat, Limited;
    q := new Quicklist(fill);
    var i := 0;
    while i < |values|
      invariant i <= |values| && q.Valid() && q.All() == values[..i] && q.unsized == null && q.fill == fill
      invariant fresh(q) && fresh(q.ns)
    {
      var _ := q.Push(values[i], false);
      assert forall j :: 0 <= j < |q.ns| ==> q.ns[j] in q.ns;
      assert values[..i] + [values[i]] == values[..i + 1];
      i := i + 1;
    }
    assert values[..i] == values;
  }

  /** A first value next to no entry, then one behind it in the full node: rest,
      whatever the copy of no bytes holds, ends up in the list. */
  method UnsizedSplit(a: bytes, b: bytes, rest: seq<bytes>) returns (q: Quicklist)
    ensures q.fill == 1 && q.count == 2 && q.All() == [a, b] + rest
    ensures q.All() == [a, b] <==> rest == []
  {
    hide Quicklist.Sound, Flat, Limited, SplitParts, InsertAt;
    q := new Quicklist(1);
    q.Insert(null, 0, a, true, [], 0);
    OneNode(q, a);
    EndNodes(q);
    assert forall j :: 0 <= j < |q.ns| ==> q.ns[j] in q.ns;
    assert fresh(q.ns);
    q.Insert(q.head, 0, b, true, rest, 0);
    TwoNodes(a, b, rest);
  }

  lemma TwoNodes(a: bytes, b: bytes, rest: seq<bytes>)
    ensures Flat(SplitParts([[a]], 0, 0, b, true, false, rest)) == [a, b] + rest
  {
    assert InsertAt(rest, 0, b) == [b] + rest;
    assert [a][..1] == [a] && [[a]][0 := [a]] == [[a]];
    assert InsertAt([[a]], 1, [b] + rest) == [[a], [b] + rest];
    FlatTwo([a], [b] + rest);
    assert [a] + ([b] + rest) == [a, b] + rest;
  }

  lemma OneNode(q: Quicklist, a: bytes)
    requires q.Valid() && |q.ns| == 1 && q.ns[0].sz == 0 && q.All() == InsertAt([], 0, a) && q.fill == 1
    ensures q.parts == [[a]] && q.count == 1 && q.ns[0].count == 1
    ensures forall b :: !q.Intact(q.ns[0], 0, b, true)
  {
    assert q.parts == [q.parts[0]];
    FlatOne(q.parts[0]);
    assert InsertAt([], 0, a) == [a];
  }
}
