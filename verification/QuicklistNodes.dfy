// The linked nodes of a quicklist (quicklist.c).  A node holds a ziplist, here
// by its contents; the ziplist module proves that its operations act so.
module QuicklistNodes {
  import opened Bytes
  import opened Sequences

  class Node {
    var prev: Node?
    var next: Node?
    var zl: seq<bytes>
    var count: nat
    /** The size as last stored. */
    var sz: nat
    /** How many bytes the ziplist really takes. */
    var blob: nat

    /** quicklistCreateNode. */
    constructor ()
      ensures prev == null && next == null && zl == [] && count == 0 && sz == 0
    {
      prev, next, zl, count, sz, blob := null, null, [], 0, 0, 0;
    }

    /** A new ziplist; its header and end mark alone take 11 bytes, and the
        contents do not determine the rest. */
    method Put(contents: seq<bytes>)
      modifies this`zl, this`blob
      ensures zl == contents && blob >= 11
    {
      zl := contents;
      blob := *;
      if blob < 11 { blob := 11; }
    }

    /** quicklistNodeUpdateSz. */
    method UpdateSz()
      modifies this`sz
      ensures sz == blob
    {
      sz := blob;
    }
  }

  datatype Link = Link(prev: Node?, next: Node?)

  ghost predicate Distinct(ns: seq<Node>) {
    forall i, j :: 0 <= i < j < |ns| ==> ns[i] != ns[j]
  }

  function At(ns: seq<Node>, i: int): Node? {
    if 0 <= i < |ns| then ns[i] else null
  }

  /** links are the pointers in the heap. */
  ghost predicate Snapshot(ns: seq<Node>, links: seq<Link>)
    reads ns`prev, ns`next
  {
    |links| == |ns| && forall i :: 0 <= i < |ns| ==> ns[i].prev == links[i].prev && ns[i].next == links[i].next
  }

  /** The pointers of a doubly linked list of these nodes. */
  ghost predicate Chained(ns: seq<Node>, links: seq<Link>) {
    |links| == |ns| && forall i :: 0 <= i < |ns| ==> links[i] == Link(At(ns, i - 1), At(ns, i + 1))
  }

  ghost predicate Linked(ns: seq<Node>)
    reads ns`prev, ns`next
  {
    Distinct(ns) && forall i :: 0 <= i < |ns| ==> ns[i].prev == At(ns, i - 1) && ns[i].next == At(ns, i + 1)
  }

  lemma LinksOf(ns: seq<Node>) returns (links: seq<Link>)
    requires Linked(ns)
    ensures Snapshot(ns, links) && Chained(ns, links)
  {
    links := seq(|ns|, i requires 0 <= i < |ns| => Link(At(ns, i - 1), At(ns, i + 1)));
  }

  lemma LinkedAgain(ns: seq<Node>, links: seq<Link>)
    requires Snapshot(ns, links) && Chained(ns, links) && Distinct(ns)
    ensures Linked(ns)
  {
    forall i | 0 <= i < |ns|
      ensures ns[i].prev == At(ns, i - 1) && ns[i].next == At(ns, i + 1)
    {
      assert links[i] == Link(At(ns, i - 1), At(ns, i + 1));
    }
  }

  method SetPrev(n: Node, p: Node?, ghost ns: seq<Node>, ghost links: seq<Link>, ghost k: nat) returns (ghost r: seq<Link>)
    requires Snapshot(ns, links) && Distinct(ns) && k < |ns| && n == ns[k]
    modifies n`prev
    ensures r == links[k := links[k].(prev := p)] && Snapshot(ns, r)
  {
    n.prev := p;
    r := links[k := links[k].(prev := p)];
  }

  method SetNext(n: Node, p: Node?, ghost ns: seq<Node>, ghost links: seq<Link>, ghost k: nat) returns (ghost r: seq<Link>)
    requires Snapshot(ns, links) && Distinct(ns) && k < |ns| && n == ns[k]
    modifies n`next
    ensures r == links[k := links[k].(next := p)] && Snapshot(ns, r)
  {
    n.next := p;
    r := links[k := links[k].(next := p)];
  }

  lemma InsertChained(ns: seq<Node>, j: nat, x: Node, links: seq<Link>, next: seq<Link>)
    requires Chained(ns, links) && j <= |ns| && |next| == |ns| + 1
    requires next[j] == Link(At(ns, j - 1), At(ns, j))
    requires forall i :: 0 <= i < j ==> next[i] == if i == j - 1 then links[i].(next := x) else links[i]
    requires forall i :: j < i < |next| ==> next[i] == if i == j + 1 then links[i - 1].(prev := x) else links[i - 1]
    ensures Chained(InsertAt(ns, j, x), next)
  {
    hide InsertAt;
    var ms := InsertAt(ns, j, x);
    forall i | 0 <= i < |ms|
      ensures next[i] == Link(At(ms, i - 1), At(ms, i + 1))
    {
      if i < j {
        assert links[i] == Link(At(ns, i - 1), At(ns, i + 1));
      } else if i > j {
        assert links[i - 1] == Link(At(ns, i - 2), At(ns, i));
      }
    }
  }

  lemma InsertSnapshot(ns: seq<Node>, links: seq<Link>, x: Node, j: nat)
    requires Snapshot(ns, links) && j <= |ns| && x !in ns && Distinct(ns)
    ensures Snapshot(InsertAt(ns, j, x), InsertAt(links, j, Link(x.prev, x.next))) && Distinct(InsertAt(ns, j, x))
  {
    hide InsertAt;
  }

  lemma RemoveChained(ns: seq<Node>, k: nat, links: seq<Link>, next: seq<Link>)
    requires Chained(ns, links) && k < |ns| && |next| == |ns| - 1
    requires forall i :: 0 <= i < k ==> next[i] == if i == k - 1 then links[i].(next := links[k].next) else links[i]
    requires forall i :: k <= i < |next| ==> next[i] == if i == k then links[i + 1].(prev := links[k].prev) else links[i + 1]
    ensures Chained(RemoveAt(ns, k), next)
  {
    hide RemoveAt;
    var ms := RemoveAt(ns, k);
    assert links[k] == Link(At(ns, k - 1), At(ns, k + 1));
    forall i | 0 <= i < |ms|
      ensures next[i] == Link(At(ms, i - 1), At(ms, i + 1))
    {
      var j := if i < k then i else i + 1;
      assert links[j] == Link(At(ns, j - 1), At(ns, j + 1));
    }
  }

  lemma RemoveSnapshot(ns: seq<Node>, links: seq<Link>, k: nat)
    requires Snapshot(ns, links) && k < |ns| && Distinct(ns)
    ensures Snapshot(RemoveAt(ns, k), RemoveAt(links, k)) && Distinct(RemoveAt(ns, k))
  {
    hide RemoveAt;
  }

  /** The pointer part of __quicklistInsertNode: x next to node k. */
  method LinkIn(oldNode: Node, x: Node, after: bool, ghost ns: seq<Node>, ghost k: nat)
    requires Linked(ns) && k < |ns| && oldNode == ns[k] && x !in ns
    modifies x`prev, x`next, ns`prev, ns`next
    ensures Linked(InsertAt(ns, if after then k + 1 else k, x))
  {
    hide Linked, Chained, Snapshot, Distinct, InsertAt;
    ghost var links0 := LinksOf(ns);
    ghost var links := links0;
    DistinctOf(ns);
    ChainedAt(ns, links, k);
    SnapshotAt(ns, links, k);
    if after {
      x.prev := oldNode;
      x.next := oldNode.next;
      if oldNode.next != null { links := SetPrev(oldNode.next, x, ns, links, k + 1); }
      links := SetNext(oldNode, x, ns, links, k);
    } else {
      x.next := oldNode;
      x.prev := oldNode.prev;
      if oldNode.prev != null { links := SetNext(oldNode.prev, x, ns, links, k - 1); }
      links := SetPrev(oldNode, x, ns, links, k);
    }
    ghost var j := if after then k + 1 else k;
    LinkedIn(ns, j, x, links0, links);
  }

  lemma LinkedIn(ns: seq<Node>, j: nat, x: Node, links0: seq<Link>, links: seq<Link>)
    requires Chained(ns, links0) && Snapshot(ns, links) && Distinct(ns) && j <= |ns| && x !in ns
    requires |links| == |links0| == |ns| && x.prev == At(ns, j - 1) && x.next == At(ns, j)
    requires forall i :: 0 <= i < |links| ==>
      links[i] == if i == j - 1 then links0[i].(next := x) else if i == j then links0[i].(prev := x) else links0[i]
    ensures Linked(InsertAt(ns, j, x))
  {
    hide Linked, Chained, Snapshot, Distinct, InsertAt;
    InsertChained(ns, j, x, links0, InsertAt(links, j, Link(x.prev, x.next)));
    InsertSnapshot(ns, links, x, j);
    LinkedAgain(InsertAt(ns, j, x), InsertAt(links, j, Link(x.prev, x.next)));
  }

  lemma DistinctOf(ns: seq<Node>)
    requires Linked(ns)
    ensures Distinct(ns)
  {}

  lemma ChainedAt(ns: seq<Node>, links: seq<Link>, k: nat)
    requires Chained(ns, links) && k < |ns|
    ensures |links| == |ns| && links[k] == Link(At(ns, k - 1), At(ns, k + 1))
  {}

  lemma SnapshotAt(ns: seq<Node>, links: seq<Link>, k: nat)
    requires Snapshot(ns, links) && k < |ns|
    ensures |links| == |ns| && ns[k].prev == links[k].prev && ns[k].next == links[k].next
  {}

  /** The pointer part of __quicklistDelNode. */
  method LinkOut(node: Node, ghost ns: seq<Node>, ghost k: nat)
    requires Linked(ns) && k < |ns| && node == ns[k]
    modifies ns`prev, ns`next
    ensures Linked(RemoveAt(ns, k)) && node.prev == At(ns, k - 1) && node.next == At(ns, k + 1)
  {
    hide Linked, Chained, Snapshot, Distinct, RemoveAt;
    ghost var links0 := LinksOf(ns);
    ghost var links := links0;
    DistinctOf(ns);
    ChainedAt(ns, links, k);
    SnapshotAt(ns, links, k);
    if node.next != null { links := SetPrev(node.next, node.prev, ns, links, k + 1); }
    SnapshotAt(ns, links, k);
    if node.prev != null { links := SetNext(node.prev, node.next, ns, links, k - 1); }
    SnapshotAt(ns, links, k);
    LinkedOut(ns, k, links0, links);
  }

  lemma LinkedOut(ns: seq<Node>, k: nat, links0: seq<Link>, links: seq<Link>)
    requires Chained(ns, links0) && Snapshot(ns, links) && Distinct(ns) && k < |ns| && |links| == |links0| == |ns|
    requires forall i :: 0 <= i < |links| ==>
      links[i] == if i == k - 1 then links0[i].(next := links0[k].next)
                  else if i == k + 1 then links0[i].(prev := links0[k].prev) else links0[i]
    ensures Linked(RemoveAt(ns, k))
  {
    hide Linked, Chained, Snapshot, Distinct, RemoveAt;
    RemoveChained(ns, k, links0, RemoveAt(links, k));
    RemoveSnapshot(ns, links, k);
    LinkedAgain(RemoveAt(ns, k), RemoveAt(links, k));
  }
}
