// The intset (intset.c): a sorted set of integers packed at one width, which
// grows when an integer needs it and never shrinks.
module Intset {
  import opened Bytes
  import opened Sequences
  import opened IntsetWords

  ghost predicate Sorted(vs: seq<int>) {
    forall i, j :: 0 <= i < j < |vs| ==> vs[i] < vs[j]
  }

  /** Where a value is, or where it has to go. */
  ghost predicate Found(vs: seq<int>, value: int, pos: nat) {
    pos < |vs| && vs[pos] == value
  }

  ghost predicate Place(vs: seq<int>, value: int, pos: nat) {
    && pos <= |vs|
    && (forall i :: 0 <= i < pos ==> vs[i] < value)
    && (forall i :: pos <= i < |vs| ==> vs[i] > value)
  }

  lemma PlaceIsOutside(vs: seq<int>, value: int, pos: nat)
    requires Place(vs, value, pos)
    ensures value !in vs
  {}

  lemma InsertFacts(vs: seq<int>, pos: nat, value: int)
    requires Sorted(vs) && Place(vs, value, pos)
    ensures Sorted(InsertAt(vs, pos, value))
    ensures forall x :: x in InsertAt(vs, pos, value) <==> x in vs || x == value
  {
    var r := InsertAt(vs, pos, value);
    forall x | x in vs
      ensures x in r
    {
      var i :| 0 <= i < |vs| && vs[i] == x;
      assert r[if i < pos then i else i + 1] == x;
    }
    assert r[pos] == value;
    hide InsertAt;
  }

  lemma RemoveFacts(vs: seq<int>, pos: nat)
    requires Sorted(vs) && pos < |vs|
    ensures Sorted(RemoveAt(vs, pos))
    ensures forall x :: x in RemoveAt(vs, pos) <==> x in vs && x != vs[pos]
  {
    hide RemoveAt;
    var r := RemoveAt(vs, pos);
    forall x | x in vs && x != vs[pos]
      ensures x in r
    {
      var i :| 0 <= i < |vs| && vs[i] == x;
      assert r[if i < pos then i else i - 1] == x;
    }
  }

  class Intset {
    var encoding: nat
    var length: nat
    var contents: bytes

    ghost predicate Valid()
      reads this
    {
      && IsEncoding(encoding) && |contents| == Off(length, encoding)
      && Sorted(Values(contents, length, encoding))
    }

    /** The members in increasing order. */
    ghost function Members(): (vs: seq<int>)
      requires Valid()
      reads this
    {
      Values(contents, length, encoding)
    }

    /** intsetNew. */
    constructor ()
      ensures Valid() && Members() == []
    {
      encoding, length, contents := 2, 0, [];
    }

    /** _intsetGet. */
    method Get(pos: nat) returns (v: int)
      requires Valid() && pos < length
      ensures v == Members()[pos]
    {
      ValuesAt(contents, length, encoding, pos);
      v := ValueAt(contents, pos, encoding);
    }

    /** intsetSearch: early tests, then binary search. */
    method Search(value: int) returns (found: bool, pos: nat)
      requires Valid()
      ensures found ==> Found(Members(), value, pos)
      ensures !found ==> Place(Members(), value, pos)
    {
      hide Values, Off;
      ghost var vs := Members();
      if length == 0 { return false, 0; }
      var last := Get(length - 1);
      if value > last { return false, length; }
      var first := Get(0);
      if value < first { return false, 0; }
      var min, max := 0, length - 1;
      while max >= min
        invariant 0 <= min <= length && -1 <= max < length && min <= max + 1
        invariant forall i :: 0 <= i < min ==> vs[i] < value
        invariant forall i :: max < i < length ==> vs[i] > value
        decreases max - min + 1
      {
        var mid := (min + max) / 2;
        var cur := Get(mid);
        if value > cur {
          min := mid + 1;
        } else if value < cur {
          max := mid - 1;
        } else {
          return true, mid;
        }
      }
      return false, min;
    }

    /** intsetFind. */
    method Find(value: int) returns (found: bool)
      requires Valid() && IsI64(value)
      ensures found <==> value in Members()
    {
      hide Values, Off, Sorted;
      TooWide(contents, length, encoding, value);
      if ValueEncoding(value) > encoding { return false; }
      var pos;
      found, pos := Search(value);
      if !found { PlaceIsOutside(Members(), value, pos); }
    }

    /** intsetUpgradeAndAdd: widen in place, back to front. */
    method UpgradeAndAdd(value: int)
      requires Valid() && IsI64(value) && ValueEncoding(value) > encoding
      modifies this
      ensures Valid() && value !in old(Members()) && encoding == ValueEncoding(value)
      ensures Members() == if value < 0 then [value] + old(Members()) else old(Members()) + [value]
    {
      hide Values, Off, Sorted, ValueAt, Put, Load;
      ghost var vs := Members();
      ghost var s0 := contents;
      var curenc, newenc := encoding, ValueEncoding(value);
      var prepend := if value < 0 then 1 else 0;
      encoding := newenc;
      OffWider(length, curenc, newenc);
      OffFacts(length, length + 1, newenc);
      contents := Realloc(contents, Off(length + 1, newenc));
      contents := Widen(contents, length, curenc, newenc, prepend, s0);
      Upgraded(s0, contents, length, curenc, newenc, prepend, value);
      contents := SetValue(contents, if prepend == 1 then 0 else length, newenc, value, length + 1);
      length := length + 1;
    }

    /** intsetAdd. */
    method Add(value: int) returns (success: bool)
      requires Valid() && IsI64(value)
      modifies this
      ensures Valid() && (success <==> value !in old(Members()))
      ensures forall x :: x in Members() <==> x in old(Members()) || x == value
      ensures |Members()| == |old(Members())| + if success then 1 else 0
      ensures encoding == if ValueEncoding(value) > old(encoding) then ValueEncoding(value) else old(encoding)
    {
      hide Values, Off, Sorted, Place;
      if ValueEncoding(value) > encoding {
        UpgradeAndAdd(value);
        return true;
      }
      var found, pos := Search(value);
      if found { return false; }
      Insert(pos, value);
      return true;
    }

    /** The rest of intsetAdd when value goes to pos at the current width. */
    method Insert(pos: nat, value: int)
      requires Valid() && Place(Members(), value, pos) && IsI64(value) && ValueEncoding(value) <= encoding
      modifies this
      ensures Valid() && Members() == InsertAt(old(Members()), pos, value) && value !in old(Members()) && encoding == old(encoding)
      ensures forall x :: x in Members() <==> x in old(Members()) || x == value
    {
      hide Values, Off, Sorted, Fits, Put, Moved, ValueAt, Place, InsertAt;
      ghost var vs := Members();
      PlaceBound(vs, value, pos);
      InsertFacts(vs, pos, value);
      PlaceIsOutside(vs, value, pos);
      WiderFits(value, encoding);
      OffFacts(length, length + 1, encoding);
      var s := Realloc(contents, Off(length + 1, encoding));
      Regrown(contents, s, length, encoding);
      s := OpenSlot(s, pos, length, encoding, vs);
      Inserted(vs, s, length, encoding, pos, value);
      contents := SetValue(s, pos, encoding, value, length + 1);
      length := length + 1;
    }

    /** intsetRemove. */
    method Remove(value: int) returns (success: bool)
      requires Valid() && IsI64(value)
      modifies this
      ensures Valid() && (success <==> value in old(Members()))
      ensures forall x :: x in Members() <==> x in old(Members()) && x != value
      ensures encoding == old(encoding)
    {
      hide Values, Off, Sorted, Fits, Put, Moved;
      TooWide(contents, length, encoding, value);
      if ValueEncoding(value) > encoding { return false; }
      ghost var vs := Members();
      var found, pos := Search(value);
      if !found {
        PlaceIsOutside(vs, value, pos);
        return false;
      }
      RemoveFacts(vs, pos);
      var s := CloseSlot(contents, pos, length, encoding);
      OffFacts(length - 1, length, encoding);
      contents := Realloc(s, Off(length - 1, encoding));
      Shrunk(s, contents, length, encoding, vs, pos);
      length := length - 1;
      return true;
    }
  }

  lemma PlaceBound(vs: seq<int>, value: int, pos: nat)
    requires Place(vs, value, pos)
    ensures pos <= |vs|
  {}

  lemma WiderFits(value: int, enc: nat)
    requires IsI64(value) && IsEncoding(enc) && ValueEncoding(value) <= enc
    ensures Fits(value, enc)
  {}

  /** intsetMoveTail: the elements from..length stand from to on afterwards, also
      when the two stretches overlap, and the others stay. */
  method MoveTail(s: bytes, from: nat, to: nat, length: nat, enc: nat, ghost n: nat) returns (r: bytes)
    requires IsEncoding(enc) && from <= length <= n && to + (length - from) <= n && |s| == Off(n, enc)
    ensures |r| == |s|
    ensures forall i :: 0 <= i < n ==> Off(i, enc) + enc <= |s|
    ensures forall i :: 0 <= i < n && !(to <= i < to + (length - from)) ==> ValueAt(r, i, enc) == ValueAt(s, i, enc)
    ensures forall i :: to <= i < to + (length - from) ==> ValueAt(r, i, enc) == ValueAt(s, i - to + from, enc)
  {
    hide Off, ValueAt, Moved;
    OffFacts(length, n, enc);
    OffFacts(to + (length - from), n, enc);
    r := Moved(s, from, to, length, enc);
    forall i | 0 <= i < n
      ensures Off(i, enc) + enc <= |s|
      ensures !(to <= i < to + (length - from)) ==> ValueAt(r, i, enc) == ValueAt(s, i, enc)
      ensures to <= i < to + (length - from) ==>
                Off(i - to + from, enc) + enc <= |s| && ValueAt(r, i, enc) == ValueAt(s, i - to + from, enc)
    {
      OffFacts(i, n, enc);
      if i < to {
        MovedHead(s, from, to, length, enc, i);
      } else if i < to + (length - from) {
        MovedTail(s, from, to, length, enc, i - to + from);
        assert to + (i - to + from - from) == i;
      } else {
        MovedRest(s, from, to, length, enc, i, n);
      }
    }
  }

  function Before(i: int, pos: nat): int { if i < pos then i else i - 1 }

  /** Make room at pos. */
  method OpenSlot(s: bytes, pos: nat, length: nat, enc: nat, ghost vs: seq<int>) returns (r: bytes)
    requires IsEncoding(enc) && pos <= length == |vs| && |s| == Off(length + 1, enc)
    requires forall i :: 0 <= i < length ==> Off(i, enc) + enc <= |s| && ValueAt(s, i, enc) == vs[i]
    ensures |r| == |s|
    ensures forall i :: 0 <= i <= length && i != pos ==> Off(i, enc) + enc <= |r| && ValueAt(r, i, enc) == vs[Before(i, pos)]
  {
    hide Off, ValueAt;
    r := s;
    if pos < length { r := MoveTail(s, pos, pos + 1, length, enc, length + 1); }
  }

  /** Overwrite element pos with the ones behind it. */
  method CloseSlot(s: bytes, pos: nat, length: nat, enc: nat) returns (r: bytes)
    requires IsEncoding(enc) && pos < length && |s| == Off(length, enc)
    ensures |r| == |s|
    ensures forall i :: 0 <= i < length - 1 ==> Off(i, enc) + enc <= |r| && ValueAt(r, i, enc) == Values(s, length, enc)[if i < pos then i else i + 1]
  {
    hide Off, ValueAt, Values;
    r := s;
    if pos < length - 1 { r := MoveTail(s, pos + 1, pos, length, enc, length); }
    forall i | 0 <= i < length - 1
      ensures Off(i, enc) + enc <= |r| && ValueAt(r, i, enc) == Values(s, length, enc)[if i < pos then i else i + 1]
    {
      ValuesAt(s, length, enc, i);
      ValuesAt(s, length, enc, i + 1);
    }
  }

  lemma Shrunk(s: bytes, t: bytes, n: nat, enc: nat, vs: seq<int>, pos: nat)
    requires IsEncoding(enc) && n > 0 && |vs| == n && pos < n && |s| == Off(n, enc) && |t| == Off(n - 1, enc) <= |s| && t == s[..|t|]
    requires forall i :: 0 <= i < n - 1 ==> Off(i, enc) + enc <= |s| && ValueAt(s, i, enc) == vs[if i < pos then i else i + 1]
    ensures Values(t, n - 1, enc) == RemoveAt(vs, pos)
  {
    hide Off, ValueAt, Values, RemoveAt;
    assert t[..|t|] == t;
    forall i | 0 <= i < n - 1
      ensures Off(i, enc) + enc <= |t| && ValueAt(t, i, enc) == RemoveAt(vs, pos)[i]
    {
      ValueFromPrefix(s, t, n - 1, i, enc);
    }
    ValuesAre(t, n - 1, enc, RemoveAt(vs, pos));
  }

  /** The resized array still holds the elements. */
  lemma Regrown(s: bytes, t: bytes, n: nat, enc: nat)
    requires IsEncoding(enc) && |s| == Off(n, enc) && |t| == Off(n + 1, enc) && |s| <= |t| && t[..|s|] == s
    ensures forall i :: 0 <= i < n ==> Off(i, enc) + enc <= |t| && ValueAt(t, i, enc) == Values(s, n, enc)[i]
  {
    hide Off, ValueAt, Values;
    assert s[..|s|] == s;
    forall i | 0 <= i < n
      ensures Off(i, enc) + enc <= |t| && ValueAt(t, i, enc) == Values(s, n, enc)[i]
    {
      ValueFromPrefix(t, s, n, i, enc);
      ValuesAt(s, n, enc, i);
    }
  }

  lemma ValuesAre(s: bytes, n: nat, enc: nat, vs: seq<int>)
    requires IsEncoding(enc) && Off(n, enc) <= |s| && |vs| == n
    requires forall i :: 0 <= i < n ==> Off(i, enc) + enc <= |s| && ValueAt(s, i, enc) == vs[i]
    ensures Values(s, n, enc) == vs
  {
    hide Off, ValueAt, Values;
    forall i | 0 <= i < n
      ensures Values(s, n, enc)[i] == vs[i]
    {
      ValuesAt(s, n, enc, i);
    }
  }

  /** A value too wide for the encoding is not a member. */
  lemma TooWide(s: bytes, n: nat, enc: nat, value: int)
    requires IsEncoding(enc) && Off(n, enc) <= |s| && IsI64(value)
    ensures ValueEncoding(value) > enc ==> value !in Values(s, n, enc)
  {
    hide Off, Values;
    if ValueEncoding(value) > enc {
      forall i | 0 <= i < n
        ensures Values(s, n, enc)[i] != value
      {
        ValuesAt(s, n, enc, i);
      }
    }
  }

  /** The loop of intsetUpgradeAndAdd; s0 is the array before it was resized. */
  method Widen(s: bytes, length: nat, curenc: nat, newenc: nat, prepend: nat, ghost s0: bytes) returns (r: bytes)
    requires IsEncoding(curenc) && IsEncoding(newenc) && curenc < newenc && prepend <= 1
    requires |s0| == Off(length, curenc) <= |s| == Off(length + 1, newenc) && s[..|s0|] == s0
    ensures |r| == |s| && Widened(r, s0, length, curenc, newenc, prepend, 0)
  {
    hide Off, ValueAt, Widened;
    r := s;
    var k: nat := length;
    WidenStart(r, s0, length, curenc, newenc, prepend);
    while k > 0
      invariant k <= length && |r| == |s| && Widened(r, s0, length, curenc, newenc, prepend, k)
    {
      k := k - 1;
      WidenReads(r, s0, length, curenc, newenc, prepend, k);
      WidenStep(r, s0, length, curenc, newenc, prepend, k);
      r := Put(r, k + prepend, newenc, ValueAt(r, k, curenc));
    }
  }

  /** Elements from k on are in their new places and the bytes of those before
      are untouched. */
  ghost predicate Widened(r: bytes, s0: bytes, n: nat, curenc: nat, newenc: nat, prepend: nat, k: nat)
    requires IsEncoding(curenc) && IsEncoding(newenc) && curenc < newenc && prepend <= 1
  {
    && k <= n && |s0| == Off(n, curenc) && |r| == Off(n + 1, newenc)
    && Off(k, curenc) <= |r| && Off(k, curenc) <= |s0| && r[..Off(k, curenc)] == s0[..Off(k, curenc)]
    && forall j :: k + prepend <= j < n + prepend ==>
      Off(j, newenc) + newenc <= |r| && ValueAt(r, j, newenc) == Values(s0, n, curenc)[j - prepend]
  }

  lemma WidenStart(r: bytes, s0: bytes, n: nat, curenc: nat, newenc: nat, prepend: nat)
    requires IsEncoding(curenc) && IsEncoding(newenc) && curenc < newenc && prepend <= 1
    requires |s0| == Off(n, curenc) <= |r| == Off(n + 1, newenc) && r[..|s0|] == s0
    ensures Widened(r, s0, n, curenc, newenc, prepend, n)
  {
    hide Off, ValueAt;
    assert s0[..|s0|] == s0;
  }

  lemma WidenReads(r: bytes, s0: bytes, n: nat, curenc: nat, newenc: nat, prepend: nat, k: nat)
    requires IsEncoding(curenc) && IsEncoding(newenc) && curenc < newenc && prepend <= 1
    requires k < n && Widened(r, s0, n, curenc, newenc, prepend, k + 1)
    ensures Off(k, curenc) + curenc <= |r| && Off(k, curenc) + curenc <= |s0|
    ensures ValueAt(r, k, curenc) == ValueAt(s0, k, curenc)
    ensures Off(k + prepend, newenc) + newenc <= |r| && Fits(ValueAt(r, k, curenc), newenc)
  {
    hide Off, ValueAt;
    ValueFromPrefix(r, s0, k + 1, k, curenc);
    OffFacts(k + prepend, n + 1, newenc);
  }

  /** The word written lies behind everything still to be read. */
  lemma WidenStep(r: bytes, s0: bytes, n: nat, curenc: nat, newenc: nat, prepend: nat, k: nat)
    requires IsEncoding(curenc) && IsEncoding(newenc) && curenc < newenc && prepend <= 1
    requires k < n && Widened(r, s0, n, curenc, newenc, prepend, k + 1)
    requires Off(k, curenc) + curenc <= |r| && Off(k, curenc) + curenc <= |s0| && ValueAt(r, k, curenc) == ValueAt(s0, k, curenc)
    requires Off(k + prepend, newenc) + newenc <= |r| && Fits(ValueAt(r, k, curenc), newenc)
    ensures Widened(Put(r, k + prepend, newenc, ValueAt(r, k, curenc)), s0, n, curenc, newenc, prepend, k)
  {
    hide Off, ValueAt, Put, Values;
    var v := ValueAt(r, k, curenc);
    var p := k + prepend;
    var t := Put(r, p, newenc, v);
    PutSame(r, p, newenc, v);
    OffFacts(k, k + 1, curenc);
    OffWider(k, curenc, newenc);
    OffFacts(k, p, newenc);
    ShorterPrefix(r, s0, t, Off(k + 1, curenc), Off(p, newenc), Off(k, curenc));
    ValuesAt(s0, n, curenc, k);
    forall j | p <= j < n + prepend
      ensures Off(j, newenc) + newenc <= |t| && ValueAt(t, j, newenc) == Values(s0, n, curenc)[j - prepend]
    {
      if j > p {
        assert Off(j, newenc) + newenc <= |r| && ValueAt(r, j, newenc) == Values(s0, n, curenc)[j - prepend];
        PutOther(r, p, newenc, v, j);
      }
    }
  }

  lemma ShorterPrefix(r: bytes, s: bytes, t: bytes, a: nat, b: nat, c: nat)
    requires c <= a <= |r| && a <= |s| && r[..a] == s[..a] && c <= b <= |r| && b <= |t| && t[..b] == r[..b]
    ensures t[..c] == s[..c]
  {
    assert t[..c] == t[..b][..c] && r[..c] == r[..b][..c] && r[..c] == r[..a][..c] && s[..c] == s[..a][..c];
  }

  method SetValue(s: bytes, pos: nat, enc: nat, value: int, ghost n: nat) returns (r: bytes)
    requires IsEncoding(enc) && Fits(value, enc) && pos < n && |s| == Off(n, enc)
    ensures Off(pos, enc) + enc <= |s| && r == Put(s, pos, enc, value)
  {
    OffFacts(pos, n, enc);
    r := Put(s, pos, enc, value);
  }

  /** With value put in its place the widened array is the whole set. */
  lemma Upgraded(s0: bytes, r: bytes, n: nat, curenc: nat, newenc: nat, prepend: nat, value: int)
    requires IsEncoding(curenc) && IsEncoding(newenc) && curenc < newenc && prepend == if value < 0 then 1 else 0
    requires Widened(r, s0, n, curenc, newenc, prepend, 0) && IsI64(value) && newenc == ValueEncoding(value)
    requires Sorted(Values(s0, n, curenc))
    ensures var at := if prepend == 1 then 0 else n;
            var vs := Values(s0, n, curenc);
            && Off(at, newenc) + newenc <= |r| == Off(n + 1, newenc)
            && Values(Put(r, at, newenc, value), n + 1, newenc) == (if value < 0 then [value] + vs else vs + [value])
            && Sorted(if value < 0 then [value] + vs else vs + [value]) && value !in vs
  {
    hide Off, ValueAt, Values, Put, Fits, Sorted;
    var at := if prepend == 1 then 0 else n;
    var vs := Values(s0, n, curenc);
    OffFacts(at, n + 1, newenc);
    var t := Put(r, at, newenc, value);
    PutSame(r, at, newenc, value);
    var all := if value < 0 then [value] + vs else vs + [value];
    forall i | 0 <= i < n + 1
      ensures Off(i, newenc) + newenc <= |t| && ValueAt(t, i, newenc) == all[i]
    {
      OffFacts(i, n + 1, newenc);
      if i != at {
        PutOther(r, at, newenc, value, i);
      }
    }
    ValuesAre(t, n + 1, newenc, all);
    Extremes(s0, n, curenc, value);
    BeyondSorted(vs, value);
  }

  lemma BeyondSorted(vs: seq<int>, value: int)
    requires Sorted(vs) && forall x :: x in vs ==> if value < 0 then value < x else x < value
    ensures Sorted(if value < 0 then [value] + vs else vs + [value]) && value !in vs
  {
    assert forall i :: 0 <= i < |vs| ==> vs[i] in vs;
  }

  /** A value that needs a wider encoding lies beyond all members. */
  lemma Extremes(s0: bytes, n: nat, enc: nat, value: int)
    requires IsEncoding(enc) && Off(n, enc) <= |s0| && IsI64(value) && ValueEncoding(value) > enc
    ensures forall x :: x in Values(s0, n, enc) ==> if value < 0 then value < x else x < value
  {
    hide Off, Values;
    forall i | 0 <= i < n
      ensures var x := Values(s0, n, enc)[i]; if value < 0 then value < x else x < value
    {
      ValuesAt(s0, n, enc, i);
    }
  }

  lemma Inserted(vs: seq<int>, s: bytes, n: nat, enc: nat, pos: nat, value: int)
    requires IsEncoding(enc) && |vs| == n && |s| == Off(n + 1, enc) && pos <= n && Fits(value, enc)
    requires forall i :: 0 <= i <= n && i != pos ==> Off(i, enc) + enc <= |s| && ValueAt(s, i, enc) == vs[Before(i, pos)]
    ensures Off(pos, enc) + enc <= |s|
    ensures Values(Put(s, pos, enc, value), n + 1, enc) == InsertAt(vs, pos, value)
  {
    hide Off, ValueAt, Values, Put, Fits, InsertAt;
    OffFacts(pos, n + 1, enc);
    PutSame(s, pos, enc, value);
    var t := Put(s, pos, enc, value);
    var all := InsertAt(vs, pos, value);
    forall i | 0 <= i < n + 1
      ensures Off(i, enc) + enc <= |t| && ValueAt(t, i, enc) == all[i]
    {
      OffFacts(i, n + 1, enc);
      if i != pos { PutOther(s, pos, enc, value, i); }
    }
    ValuesAre(t, n + 1, enc, all);
  }
}
