// The ziplist byte buffer (ziplist.c): header words, reading entries in
// place, resizing and moving bytes.
module ZiplistBuffer {
  import opened Bytes
  import opened Sequences
  import opened ZiplistEntry
  import opened ZiplistNodes

  const HEADER: nat := 10

  function ZlBytes(z: bytes): (n: nat)
    requires |z| >= HEADER
    ensures n < U32
  {
    Get4(z, 0)
  }

  function ZlTail(z: bytes): (n: nat)
    requires |z| >= HEADER
    ensures n < U32
  {
    Get4(z, 4)
  }

  function ZlCount(z: bytes): (n: nat)
    requires |z| >= HEADER
    ensures n < U16
  {
    Get2(z, 8)
  }

  /** From offset p on the buffer holds exactly these entries and the end mark. */
  ghost predicate Region(z: bytes, p: nat, es: seq<Node>) {
    p <= |z| && z[p..] == Ser(es) + [ZIP_END]
  }

  lemma Prefixed<T>(s: seq<T>, p: nat, a: seq<T>, b: seq<T>)
    requires p <= |s| && s[p..] == a + b
    ensures |s| == p + |a| + |b| && s[p..p + |a|] == a && s[p + |a|..] == b
  {
    assert s[p..p + |a|] == s[p..][..|a|] && s[p + |a|..] == s[p..][|a|..];
  }

  lemma Joined<T>(s: seq<T>, p: nat, a: seq<T>, b: seq<T>)
    requires p + |a| <= |s| && s[p..p + |a|] == a && s[p + |a|..] == b
    ensures s[p..] == a + b
  {
    assert s[p..] == s[p..p + |a|] + s[p + |a|..];
  }

  // ------------------------------------------------------------ reading

  /** The three decoding macros stay inside the buffer at p. */
  predicate EntryInBounds(z: bytes, p: nat) {
    && p < |z| && p + PrevSize(z, p) < |z|
    && p + PrevSize(z, p) + LenSize(z, p + PrevSize(z, p)) <= |z|
  }

  /** zipRawEntryLength, also headersize + len of zipEntry. */
  function RawEntryLength(z: bytes, p: nat): nat
    requires EntryInBounds(z, p)
  {
    var q := p + PrevSize(z, p);
    PrevSize(z, p) + LenSize(z, q) + Len(z, q)
  }

  /** The readers recover what an entry was written from. */
  lemma ReadEntry(z: bytes, p: nat, e: Node)
    requires Readable(e) && p + RawLen(e) <= |z| && z[p..p + RawLen(e)] == Raw(e)
    ensures EntryInBounds(z, p) && z[p] != ZIP_END
    ensures PrevSize(z, p) == (if e.big then 5 else 1) && PrevLen(z, p) == e.prev
    ensures RawEntryLength(z, p) == RawLen(e)
    ensures var q := p + PrevSize(z, p); LenSize(z, q) == LenSize(e.body, 0) && z[q] == e.body[0]
  {
    var f := PrevField(e.prev, e.big);
    var h := LenSize(e.body, 0);
    var q := p + |f|;
    assert f + e.body == Raw(e) by { hide *; assert Raw(e) == PrevField(e.prev, e.big) + e.body by { RawIs(e); } }
    SliceOfSum(z, p, f, e.body);
    PrevFieldRead(z, p, e.prev, e.big);
    hide PrevField, Raw, Le4;
    assert z[q..q + h] == e.body[..h] by {
      assert z[q..q + h] == z[q..q + |e.body|][..h];
    }
    assert z[q] == z[q..q + h][0];
    SameHeader(z, q, e.body);
  }

  lemma RawIs(e: Node)
    ensures Raw(e) == PrevField(e.prev, e.big) + e.body
  {}

  lemma SliceOfSum(z: bytes, p: nat, a: bytes, b: bytes)
    requires p + |a| + |b| <= |z| && z[p..p + |a| + |b|] == a + b
    ensures z[p..p + |a|] == a && z[p + |a|..p + |a| + |b|] == b
  {
    var s := z[p..p + |a| + |b|];
    assert z[p..p + |a|] == s[..|a|] && z[p + |a|..p + |a| + |b|] == s[|a|..];
  }

  lemma RegionHead(z: bytes, p: nat, es: seq<Node>)
    requires Region(z, p, es)
    ensures es == [] ==> p == |z| - 1 && z[p] == ZIP_END
    ensures es != [] ==>
              && p + RawLen(es[0]) < |z|
              && z[p..p + RawLen(es[0])] == Raw(es[0])
              && Region(z, p + RawLen(es[0]), es[1..])
    ensures |z| == p + |Ser(es)| + 1 && z[|z| - 1] == ZIP_END
  {
    hide Raw;
    assert z[|z| - 1] == z[p..][|Ser(es)|];
    if es != [] {
      Assoc(Raw(es[0]), Ser(es[1..]), [ZIP_END]);
      Prefixed(z, p, Raw(es[0]), Ser(es[1..]) + [ZIP_END]);
    }
  }

  /** Reading at the start of a region. */
  lemma RegionRead(z: bytes, p: nat, es: seq<Node>)
    requires Region(z, p, es) && AllReadable(es)
    ensures p < |z| && (z[p] == ZIP_END <==> es == [])
    ensures es == [] ==> p == |z| - 1
    ensures es != [] ==>
              && EntryInBounds(z, p)
              && PrevSize(z, p) == (if es[0].big then 5 else 1) && PrevLen(z, p) == es[0].prev
              && RawEntryLength(z, p) == RawLen(es[0])
              && p + RawLen(es[0]) < |z|
              && Region(z, p + RawLen(es[0]), es[1..])
  {
    hide Raw, Ser;
    RegionHead(z, p, es);
    if es != [] { ReadEntry(z, p, es[0]); }
  }

  /** Replacing the first entry of a region by one with the same body. */
  lemma RegionReplace(z: bytes, p: nat, e: Node, t: seq<Node>, w: bytes, q: nat, e': Node)
    requires Region(z, p, [e] + t) && e'.body == e.body
    requires var f := PrevField(e'.prev, e'.big);
             var o := |PrevField(e.prev, e.big)|;
             && q + |f| <= |w| && w[q..q + |f|] == f
             && p + o <= |z| && w[q + |f|..] == z[p + o..]
    ensures Region(w, q, [e'] + t)
  {
    var f, o := PrevField(e'.prev, e'.big), PrevField(e.prev, e.big);
    RawIs(e);
    RawIs(e');
    SerCons(e, t);
    SerCons(e', t);
    hide Raw, PrevField, Ser;
    var rest := e.body + (Ser(t) + [ZIP_END]);
    assert (o + e.body) + Ser(t) + [ZIP_END] == o + rest;
    Prefixed(z, p, o, rest);
    Joined(w, q, f, rest);
    assert (f + e.body) + Ser(t) + [ZIP_END] == f + rest;
  }

  lemma SerCons(e: Node, t: seq<Node>)
    ensures Ser([e] + t) == Raw(e) + Ser(t)
  {
    hide Raw;
    assert ([e] + t)[1..] == t;
  }

  /** A buffer part can be read as a list of entries in one way only. */
  lemma {:induction false} RegionUnique(z: bytes, p: nat, es: seq<Node>, fs: seq<Node>)
    requires Region(z, p, es) && Region(z, p, fs) && AllReadable(es) && AllReadable(fs)
    ensures es == fs
    decreases |es|
  {
    hide Ser, BodyOk, Get4;
    RegionRead(z, p, es);
    RegionRead(z, p, fs);
    if es != [] {
      RegionUnique(z, p + RawLen(es[0]), es[1..], fs[1..]);
      RegionHead(z, p, es);
      RegionHead(z, p, fs);
      SameRaw(es[0], fs[0]);
      assert es == [es[0]] + es[1..] && fs == [fs[0]] + fs[1..];
    }
  }

  lemma SameRaw(e: Node, f: Node)
    requires Raw(e) == Raw(f) && e.big == f.big && e.prev == f.prev
    ensures e == f
  {
    var n := |PrevField(e.prev, e.big)|;
    assert Raw(e)[n..] == e.body && Raw(f)[n..] == f.body;
  }

  // ------------------------------------------------------------ writing

  method Resize(z: bytes, len: nat) returns (r: bytes)
    requires |z| > HEADER && HEADER < len < U32
    ensures |r| == len && ZlBytes(r) == len && r[len - 1] == ZIP_END
    ensures ZlTail(r) == ZlTail(z) && ZlCount(r) == ZlCount(z)
    ensures forall i :: HEADER <= i < |z| && i < len - 1 ==> r[i] == z[i]
  {
    r := Realloc(z, len);
    assert forall i :: 0 <= i < |z| && i < len ==> r[i] == z[i];
    r := Splice(r, 0, Le4(len));
    Get4OfLe4(r, 0, len);
    assert forall i :: 4 <= i < |z| && i < len ==> r[i] == z[i];
    r := r[len - 1 := ZIP_END];
  }

  method SetTail(z: bytes, v: nat) returns (r: bytes)
    requires |z| > HEADER && v < U32
    ensures |r| == |z| && ZlTail(r) == v && ZlBytes(r) == ZlBytes(z) && ZlCount(r) == ZlCount(z)
    ensures forall i :: HEADER <= i < |z| ==> r[i] == z[i]
  {
    r := Splice(z, 4, Le4(v));
    Get4OfLe4(r, 4, v);
  }

  method SetCount(z: bytes, v: nat) returns (r: bytes)
    requires |z| > HEADER && v < U16
    ensures |r| == |z| && ZlCount(r) == v && ZlBytes(r) == ZlBytes(z) && ZlTail(r) == ZlTail(z)
    ensures forall i :: HEADER <= i < |z| ==> r[i] == z[i]
  {
    r := Splice(z, 8, Le2(v));
    Get2OfLe2(r, 8, v);
  }

  /** memcpy of w to offset p, behind the header. */
  method Store(z: bytes, p: nat, w: bytes) returns (r: bytes)
    requires HEADER <= p && p + |w| <= |z|
    ensures |r| == |z| && ZlBytes(r) == ZlBytes(z) && ZlTail(r) == ZlTail(z) && ZlCount(r) == ZlCount(z)
    ensures r[p..p + |w|] == w
    ensures forall i :: HEADER <= i < p || p + |w| <= i < |z| ==> r[i] == z[i]
  {
    r := Splice(z, p, w);
    assert forall i :: 0 <= i < HEADER ==> r[i] == z[i];
  }

  /** memmove of n bytes from src to dst, behind the header. */
  method Move(z: bytes, dst: nat, src: nat, n: nat) returns (r: bytes)
    requires HEADER <= dst && dst + n <= |z| && src + n <= |z|
    ensures |r| == |z| && ZlBytes(r) == ZlBytes(z) && ZlTail(r) == ZlTail(z) && ZlCount(r) == ZlCount(z)
    ensures forall i :: dst <= i < dst + n ==> r[i] == z[src + (i - dst)]
    ensures forall i :: HEADER <= i < dst || dst + n <= i < |z| ==> r[i] == z[i]
  {
    r := Splice(z, dst, z[src..src + n]);
    assert forall i :: 0 <= i < HEADER ==> r[i] == z[i];
    assert forall i :: dst <= i < dst + n ==> r[i] == r[dst..dst + n][i - dst];
  }
}
