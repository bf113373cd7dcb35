// The incrementally rehashed dictionary (dict.c).
module Dict {
  import opened Options
  import opened DictTable

  const DICT_HT_INITIAL_SIZE: nat := 4
  const FORCE_RESIZE_RATIO: nat := 5
  const LONG_MAX: nat := 0x7fff_ffff_ffff_ffff

  function Pow2(e: nat): (r: nat)
    ensures r >= 1
  {
    if e == 0 then 1 else 2 * Pow2(e - 1)
  }

  ghost predicate PowerOfTwo(n: nat) { exists e :: Pow2(e) == n }

  /** i is the smallest table size that holds size entries. */
  ghost predicate Tight(i: nat, size: nat) {
    PowerOfTwo(i) && i >= size && i >= DICT_HT_INITIAL_SIZE && (i == DICT_HT_INITIAL_SIZE || i < 2 * size)
  }

  lemma {:induction false} PowersApart(a: nat, b: nat)
    requires Pow2(a) < Pow2(b)
    ensures 2 * Pow2(a) <= Pow2(b)
    decreases b
  {
    if b > 0 && a > 0 { PowersApart(a - 1, b - 1); }
  }

  lemma TightUnique(i: nat, j: nat, size: nat)
    requires Tight(i, size) && Tight(j, size)
    ensures i == j
  {
    var a :| Pow2(a) == i;
    var b :| Pow2(b) == j;
    if i < j { PowersApart(a, b); }
    if j < i { PowersApart(b, a); }
  }

  lemma InitialIsTight()
    ensures Tight(DICT_HT_INITIAL_SIZE, DICT_HT_INITIAL_SIZE)
  {
    assert Pow2(2) == 2 * Pow2(1) == 4;
  }

  method NextPower(size: nat) returns (i: nat)
    requires size <= LONG_MAX / 2
    ensures Tight(i, size)
    ensures i >= size && i >= 4 && (i == 4 || i < 2 * size) && exists e :: i == Pow2(e)
  {
    i := DICT_HT_INITIAL_SIZE;
    ghost var e := 2;
    assert Pow2(2) == 2 * Pow2(1) == 4;
    while true
      invariant i == Pow2(e) && i >= DICT_HT_INITIAL_SIZE
      invariant i == DICT_HT_INITIAL_SIZE || i < 2 * size
      decreases if i < size then 2 * size - i else 0
    {
      if i >= size { return; }
      i := i * 2;
      e := e + 1;
    }
  }

  // ------------------------------------------------------------ rehash walks

  /** The empty buckets of t[i..j], and the others. */
  function Empties<K, V>(t: Table<K, V>, i: nat, j: nat): nat
    requires j <= |t|
  {
    if j <= i then 0 else Empties(t, i, j - 1) + if |t[j - 1]| == 0 then 1 else 0
  }

  function Fulls<K, V>(t: Table<K, V>, i: nat, j: nat): nat
    requires j <= |t|
  {
    if j <= i then 0 else Fulls(t, i, j - 1) + if |t[j - 1]| != 0 then 1 else 0
  }

  lemma {:induction false} EmptiesCounted<K, V>(t: Table<K, V>, i: nat, j: nat)
    requires i <= j <= |t|
    ensures Empties(t, i, j) == |set k | i <= k < j && |t[k]| == 0|
    decreases j
  {
    var e := set k | i <= k < j && |t[k]| == 0;
    if j > i {
      EmptiesCounted(t, i, j - 1);
      var e0 := set k | i <= k < j - 1 && |t[k]| == 0;
      assert e == if |t[j - 1]| == 0 then e0 + {j - 1} else e0;
    } else {
      assert e == {};
    }
  }

  lemma {:induction false} FullsCounted<K, V>(t: Table<K, V>, i: nat, j: nat)
    requires i <= j <= |t|
    ensures Fulls(t, i, j) == |set k | i <= k < j && |t[k]| != 0|
    decreases j
  {
    var f := set k | i <= k < j && |t[k]| != 0;
    if j > i {
      FullsCounted(t, i, j - 1);
      var f0 := set k | i <= k < j - 1 && |t[k]| != 0;
      assert f == if |t[j - 1]| != 0 then f0 + {j - 1} else f0;
    } else {
      assert f == {};
    }
  }

  lemma {:induction false} CountsGrow<K, V>(t: Table<K, V>, i: nat, j: nat, k: nat)
    requires i <= j <= k <= |t|
    ensures Empties(t, i, j) <= Empties(t, i, k) && Fulls(t, i, j) <= Fulls(t, i, k)
    ensures (exists l :: j <= l < k && |t[l]| != 0) ==> Fulls(t, i, j) < Fulls(t, i, k)
    ensures (forall l :: j <= l < k ==> |t[l]| == 0) ==> Fulls(t, i, j) == Fulls(t, i, k)
    decreases k
  {
    if j < k { CountsGrow(t, i, j, k - 1); }
  }

  /** A rehash from bucket i on can end within n buckets: no more are left, and
      fewer than ten times as many empty ones stand before any of them. */
  ghost predicate CanEnd<K, V>(t: Table<K, V>, i: nat, n: nat)
    requires i <= |t|
  {
    && |set k | i <= k < |t| && |t[k]| != 0| <= n
    && forall l :: i <= l < |t| && |t[l]| != 0 ==> |set k | i <= k < l && |t[k]| == 0| < 10 * n
  }

  /** What a call of dictRehash has passed from bucket i to j when it is not the last. */
  ghost predicate Passed<K, V>(t: Table<K, V>, i: nat, j: nat, n: nat)
    requires i <= j <= |t|
  {
    var full, empty := |set k | i <= k < j && |t[k]| != 0|, |set k | i <= k < j && |t[k]| == 0|;
    (full == n && empty < 10 * n) || (empty == 10 * n && full < n) || n == 0 == j - i
  }

  /** In terms of the place e behind the last entry: the walk to it passes at most
      n buckets with entries and, if there are any, fewer than 10 n without. */
  lemma CanEndIff<K, V>(t: Table<K, V>, i: nat, n: nat, e: nat)
    requires i <= e <= |t| && (e > i ==> t[e - 1] != []) && forall l :: e <= l < |t| ==> t[l] == []
    ensures CanEnd(t, i, n) <==>
            && |set k | i <= k < e && t[k] != []| <= n
            && (e > i ==> |set k | i <= k < e && t[k] == []| < 10 * n)
  {
    assert (set k | i <= k < |t| && |t[k]| != 0) == set k | i <= k < e && t[k] != [];
    if e > i {
      assert (set k | i <= k < e - 1 && |t[k]| == 0) == set k | i <= k < e && t[k] == [];
      forall l | i <= l < |t| && |t[l]| != 0
        ensures |set k | i <= k < l && |t[k]| == 0| <= |set k | i <= k < e - 1 && |t[k]| == 0|
      {
        EmptiesCounted(t, i, l);
        EmptiesCounted(t, i, e - 1);
        CountsGrow(t, i, l, e - 1);
      }
    }
  }

  /** A walk over t from bucket i to j that has left cur: so many buckets with
      entries, now moved, and so many empty ones. */
  ghost predicate Walk<K, V>(t: Table<K, V>, cur: Table<K, V>, i: nat, j: int, full: int, empty: int) {
    && i <= j <= |t| == |cur| && cur[j..] == t[j..] && (forall k :: 0 <= k < j ==> cur[k] == [])
    && full == Fulls(t, i, j) && empty == Empties(t, i, j) && full + empty == j - i
  }

  /** Stopped at j with entries ahead: by the buckets moved or by the empty ones. */
  lemma NotYet<K, V>(t: Table<K, V>, i: nat, j: nat, n: nat, l: nat)
    requires i <= j <= l < |t| && |t[l]| != 0
    requires (Fulls(t, i, j) == n && (Empties(t, i, j) < 10 * n || (n == 0 && i == j))) || (Empties(t, i, j) == 10 * n && Fulls(t, i, j) < n)
    ensures Passed(t, i, j, n) && !CanEnd(t, i, n)
  {
    EmptiesCounted(t, i, j);
    FullsCounted(t, i, j);
    EmptiesCounted(t, i, l);
    FullsCounted(t, i, |t|);
    CountsGrow(t, i, j, l);
    CountsGrow(t, i, j, |t|);
    hide Empties, Fulls;
  }

  /** Nothing is left behind j. */
  lemma AtEnd<K, V>(t: Table<K, V>, i: nat, j: nat, n: nat)
    requires i <= j <= |t| && Fulls(t, i, j) <= n && (n == 0 || Empties(t, i, j) < 10 * n)
    requires forall l :: j <= l < |t| ==> |t[l]| == 0
    requires n == 0 ==> i == j
    ensures CanEnd(t, i, n)
  {
    FullsCounted(t, i, |t|);
    CountsGrow(t, i, j, |t|);
    hide Empties, Fulls;
    forall l | i <= l < |t| && |t[l]| != 0
      ensures |set k | i <= k < l && |t[k]| == 0| < 10 * n
    {
      EmptiesCounted(t, i, l);
      CountsGrow(t, i, l, j);
    }
  }

  class Dict<K(==, !new), V> {
    const hash: K -> nat
    var t0: Table<K, V>
    var used0: nat
    var t1: Table<K, V>
    var used1: nat
    var rehashidx: int
    var iterators: nat
    ghost var m: map<K, V>

    ghost predicate Valid()
      reads this
    {
      && Sound(t0, hash) && used0 == Count(t0)
      && Sound(t1, hash) && used1 == Count(t1)
      && (t0 == [] || PowerOfTwo(|t0|)) && (t1 == [] || PowerOfTwo(|t1|)) && |t0| <= LONG_MAX && |t1| <= LONG_MAX
      && -1 <= rehashidx <= |t0|
      && (rehashidx == -1 <==> t1 == [])
      && (rehashidx != -1 ==> t0 != [] && forall i :: 0 <= i < rehashidx ==> t0[i] == [])
      && Union(t0, t1, hash, m)
    }

    predicate Rehashing()
      reads this
    {
      rehashidx != -1
    }

    /** dictCreate. */
    constructor (hash: K -> nat)
      ensures Valid() && m == map[] && this.hash == hash && iterators == 0 && used0 + used1 == 0
    {
      this.hash := hash;
      t0, used0, t1, used1 := [], 0, [], 0;
      rehashidx, iterators := -1, 0;
      m := map[];
    }

    /** dictExpand: 0 when a table was installed, an error otherwise. */
    method Expand(size: nat) returns (ok: bool)
      requires Valid() && size <= LONG_MAX / 2
      modifies this`t0, this`t1, this`rehashidx
      ensures Valid()
      ensures !ok ==> t0 == old(t0) && t1 == old(t1) && rehashidx == old(rehashidx)
      ensures ok <==> !old(Rehashing()) && used0 <= size && !Tight(|old(t0)|, size)
      ensures ok ==> if old(t0) == [] then !Rehashing() && Tight(|t0|, size)
                     else rehashidx == 0 && t0 == old(t0) && Tight(|t1|, size)
      ensures Installed(old(t0), old(t1), t0, t1)
    {
      var realsize := NextPower(size);
      if Tight(|t0|, size) { TightUnique(realsize, |t0|, size); }
      if Rehashing() || used0 > size { return false; }
      if realsize == |t0| { return false; }
      var n: Table<K, V> := EmptyTable(realsize);
      FreshSecond(t0, n, hash, m);
      if t0 == [] {
        t0 := n;
        return true;
      }
      t1 := n;
      rehashidx := 0;
      return true;
    }

    /** dictResize: shrink to fit. */
    method Resize(canResize: bool) returns (ok: bool)
      requires Valid() && used0 <= LONG_MAX / 2
      modifies this`t0, this`t1, this`rehashidx
      ensures Valid()
      ensures ok <==> canResize && !old(Rehashing()) && !Tight(|old(t0)|, if used0 < 4 then 4 else used0)
      ensures ok ==> Tight(if old(t0) == [] then |t0| else |t1|, if used0 < 4 then 4 else used0) && (old(t0) != [] ==> t0 == old(t0))
      ensures !ok ==> t0 == old(t0) && t1 == old(t1) && rehashidx == old(rehashidx)
    {
      if !canResize || Rehashing() { return false; }
      var minimal := used0;
      if minimal < DICT_HT_INITIAL_SIZE { minimal := DICT_HT_INITIAL_SIZE; }
      ok := Expand(minimal);
    }

    /** Move every entry of bucket rehashidx to the second table. */
    method MoveBucket()
      requires Valid() && Rehashing() && rehashidx < |t0|
      modifies this`t0, this`used0, this`t1, this`used1, this`rehashidx
      ensures Valid() && rehashidx == old(rehashidx) + 1
      ensures |t0| == |old(t0)| && |t1| == |old(t1)|
      ensures t0 == old(t0)[old(rehashidx) := []]
      ensures used0 + used1 == old(used0) + old(used1)
    {
      hide Sound, Count, Union, PowerOfTwo, Find, ChainFind;
      var de := t0[rehashidx];
      ghost var cur := t0;
      assert cur[rehashidx := de] == cur;
      while de != []
        invariant t0 == old(t0) && rehashidx == old(rehashidx) && t1 != [] && |t1| == |old(t1)|
        invariant cur == t0[rehashidx := de] && Sound(cur, hash) && Sound(t1, hash)
        invariant used0 == Count(cur) && used1 == Count(t1) && used0 + used1 == old(used0) + old(used1)
        invariant Union(cur, t1, hash, m)
        decreases |de|
      {
        MoveHead(cur, t1, hash, m, rehashidx);
        CountPositive(cur, rehashidx);
        var h := hash(de[0].key) % |t1|;
        t1 := t1[h := [de[0]] + t1[h]];
        used0, used1 := used0 - 1, used1 + 1;
        de := de[1..];
        cur := cur[rehashidx := de];
      }
      t0 := t0[rehashidx := []];
      rehashidx := rehashidx + 1;
    }

    /** dictRehash: n buckets, visiting at most 10 n empty ones. */
    method Rehash(n: nat) returns (more: bool)
      requires Valid()
      modifies this`t0, this`used0, this`t1, this`used1, this`rehashidx
      ensures Valid() && more == Rehashing()
      ensures !old(Rehashing()) ==> t0 == old(t0) && t1 == old(t1) && used0 == old(used0) && used1 == old(used1) && rehashidx == -1
      ensures old(Rehashing()) && Rehashing() ==>
                && |t0| == |old(t0)| && |t1| == |old(t1)| && (n > 0 ==> rehashidx > old(rehashidx))
                && rehashidx <= old(rehashidx) + n + 10 * n
      ensures old(Rehashing()) ==> (!Rehashing() <==> CanEnd(old(t0), old(rehashidx), n))
      ensures old(Rehashing()) && Rehashing() ==>
        && 0 <= old(rehashidx) <= rehashidx <= |t0| == |old(t0)| && t0[rehashidx..] == old(t0)[rehashidx..]
        && (forall k :: 0 <= k < rehashidx ==> t0[k] == [])
        && var t, i, j := old(t0), old(rehashidx), rehashidx;
           var full, empty := |set k | i <= k < j && |t[k]| != 0|, |set k | i <= k < j && |t[k]| == 0|;
           (full == n && empty < 10 * n) || (empty == 10 * n && full < n) || n == 0 == j - i
      ensures old(Rehashing()) && !Rehashing() ==> |t0| == |old(t1)|
      ensures used0 + used1 == old(used0) + old(used1)
    {
      hide Sound, Count, Union, PowerOfTwo, Find, ChainFind, Empties, Fulls, CanEnd, Walk;
      var emptyVisits := n * 10;
      if !Rehashing() { return false; }
      var left := n;
      ghost var t, i: nat := t0, rehashidx;
      WalkStart(t, i);
      while left > 0 && used0 != 0
        invariant Valid() && Rehashing() && 0 <= left <= n && 0 <= emptyVisits <= n * 10 && (n > 0 ==> emptyVisits > 0)
        invariant |t1| == |old(t1)| && Walk(t, t0, i, rehashidx, n - left, n * 10 - emptyVisits)
        invariant used0 + used1 == old(used0) + old(used1)
        decreases left
      {
        left := left - 1;
        NonEmptyAhead(t0, rehashidx);
        while t0[rehashidx] == []
          invariant Valid() && 0 <= rehashidx < |t0| && used0 != 0 && 0 < emptyVisits <= n * 10
          invariant |t1| == |old(t1)| && Walk(t, t0, i, rehashidx, n - left - 1, n * 10 - emptyVisits)
          invariant used0 + used1 == old(used0) + old(used1)
          decreases |t0| - rehashidx
        {
          WalkStep(t, t0, i, rehashidx, n - left - 1, n * 10 - emptyVisits);
          rehashidx := rehashidx + 1;
          emptyVisits := emptyVisits - 1;
          NonEmptyAhead(t0, rehashidx);
          if emptyVisits == 0 {
            WalkStops(t, t0, i, rehashidx, n, n - left - 1, n * 10);
            return true;
          }
        }
        WalkStep(t, t0, i, rehashidx, n - left - 1, n * 10 - emptyVisits);
        MoveBucket();
      }
      if used0 == 0 {
        WalkEnds(t, t0, i, rehashidx, n, n - left, n * 10 - emptyVisits);
        SwitchTables(t0, t1, hash, m);
        NoTable<K, V>(hash);
        t0, used0 := t1, used1;
        t1, used1 := [], 0;
        rehashidx := -1;
        return false;
      }
      WalkStops(t, t0, i, rehashidx, n, n, n * 10 - emptyVisits);
      return true;
    }

    /** _dictRehashStep: held back while a safe iterator is open. */
    method RehashStep()
      requires Valid()
      modifies this`t0, this`used0, this`t1, this`used1, this`rehashidx
      ensures Valid()
      ensures iterators > 0 || !old(Rehashing()) ==>
                t0 == old(t0) && t1 == old(t1) && used0 == old(used0) && used1 == old(used1) && rehashidx == old(rehashidx)
      ensures iterators == 0 && Rehashing() ==> rehashidx > old(rehashidx) && |t1| == |old(t1)|
      ensures old(Rehashing()) && !Rehashing() ==> |t0| == |old(t1)|
      ensures iterators == 0 && Rehashing() ==>
        && 0 <= old(rehashidx) <= rehashidx <= |t0| == |old(t0)| && t0[rehashidx..] == old(t0)[rehashidx..]
        && (forall k :: 0 <= k < rehashidx ==> t0[k] == [])
        && var t, i, j := old(t0), old(rehashidx), rehashidx;
           var full, empty := |set k | i <= k < j && |t[k]| != 0|, |set k | i <= k < j && |t[k]| == 0|;
           (full == 1 && empty < 10) || (empty == 10 && full == 0)
      ensures iterators == 0 && old(Rehashing()) ==> (!Rehashing() <==> CanEnd(old(t0), old(rehashidx), 1))
      ensures t0 == [] <==> old(t0) == []
      ensures Rehashing() ==> old(Rehashing())
      ensures used0 + used1 == old(used0) + old(used1)
    {
      if iterators == 0 { var _ := Rehash(1); }
    }

    /** _dictExpandIfNeeded: never fails. */
    method ExpandIfNeeded(canResize: bool)
      requires Valid() && used0 <= LONG_MAX / 4
      modifies this`t0, this`t1, this`rehashidx
      ensures Valid() && t0 != []
      ensures old(Rehashing()) ==> t0 == old(t0) && t1 == old(t1) && rehashidx == old(rehashidx)
      ensures old(t0) == [] ==> |t0| == DICT_HT_INITIAL_SIZE && !Rehashing()
      ensures old(t0) != [] && !old(Rehashing()) ==> (Rehashing() <==> used0 >= |t0| && (canResize || used0 / |t0| > 5))
      ensures Rehashing() && !old(Rehashing()) ==> rehashidx == 0 && Tight(|t1|, used0 * 2)
      ensures Installed(old(t0), old(t1), t0, t1)
    {
      hide Blank;
      if Rehashing() { return; }
      if |t0| == 0 {
        var ok := Expand(DICT_HT_INITIAL_SIZE);
        InitialIsTight();
        TightUnique(|t0|, DICT_HT_INITIAL_SIZE, DICT_HT_INITIAL_SIZE);
        return;
      }
      if used0 >= |t0| && (canResize || used0 / |t0| > FORCE_RESIZE_RATIO) {
        var ok := Expand(used0 * 2);
      }
    }

    /** Walk the chains that may hold key: which table, bucket and position. */
    method Locate(key: K) returns (table: nat, idx: nat, pos: nat)
      requires Valid() && t0 != []
      ensures table <= 2
      ensures table == 0 ==> idx < |t0| && pos < |t0[idx]| && t0[idx][pos].key == key && Find(t0, hash, key) == Some(t0[idx][pos].val)
      ensures table == 1 ==> idx < |t1| && pos < |t1[idx]| && t1[idx][pos].key == key && Find(t1, hash, key) == Some(t1[idx][pos].val)
      ensures table == 2 ==> Find(t0, hash, key) == None && Find(t1, hash, key) == None
    {
      hide Union, PowerOfTwo, Count;
      var h := hash(key);
      idx := h % |t0|;
      var found;
      found, pos := Search(t0[idx], key);
      if found { return 0, idx, pos; }
      if !Rehashing() { return 2, 0, 0; }
      idx := h % |t1|;
      found, pos := Search(t1[idx], key);
      if found { return 1, idx, pos; }
      return 2, 0, 0;
    }

    /** _dictKeyIndex: -1 when the key exists, else its bucket in the table
        that takes new entries. */
    method KeyIndex(key: K, canResize: bool) returns (idx: int)
      requires Valid() && used0 <= LONG_MAX / 4
      modifies this`t0, this`t1, this`rehashidx
      ensures Valid() && t0 != []
      ensures old(Rehashing()) ==> t0 == old(t0) && t1 == old(t1) && rehashidx == old(rehashidx)
      ensures old(t0) == [] ==> |t0| == DICT_HT_INITIAL_SIZE && !Rehashing()
      ensures old(t0) != [] && !old(Rehashing()) ==> (Rehashing() <==> used0 >= |t0| && (canResize || used0 / |t0| > 5))
      ensures Rehashing() && !old(Rehashing()) ==> rehashidx == 0 && Tight(|t1|, used0 * 2)
      ensures Installed(old(t0), old(t1), t0, t1)
      ensures idx == -1 <==> key in m
      ensures idx != -1 ==> idx == hash(key) % (if Rehashing() then |t1| else |t0|)
    {
      ExpandIfNeeded(canResize);
      var table, i, pos := Locate(key);
      ghost var fact := Agrees(Find(t0, hash, key), Find(t1, hash, key), m, key);
      if table != 2 { return -1; }
      idx := hash(key) % (if Rehashing() then |t1| else |t0|);
    }

    /** dictAdd: refused when the key exists. */
    method Add(key: K, val: V, canResize: bool) returns (ok: bool)
      requires Valid() && used0 + used1 <= LONG_MAX / 4
      modifies this
      ensures Valid() && iterators == old(iterators)
      ensures ok <==> key !in old(m)
      ensures m == if ok then old(m)[key := val] else old(m)
      ensures used0 + used1 == old(used0) + old(used1) + if ok then 1 else 0
      ensures old(t0) != [] && !old(Rehashing()) ==>
        (Rehashing() <==> old(used0) >= |old(t0)| && (canResize || old(used0) / |old(t0)| > 5))
      ensures Rehashing() && !old(Rehashing()) ==> rehashidx == 0 && Tight(|t1|, old(used0) * 2)
      ensures iterators == 0 && old(Rehashing()) ==>
        if CanEnd(old(t0), old(rehashidx), 1) then |t0| == |old(t1)| else rehashidx > old(rehashidx) && |t1| == |old(t1)|
      ensures iterators > 0 && !ok ==> Installed(old(t0), old(t1), t0, t1)
      ensures iterators > 0 && ok ==>
        exists a0, a1 :: Installed(old(t0), old(t1), a0, a1) && Grown(a0, a1, t0, t1, hash, Entry(key, val))
    {
      hide CanEnd, Find, Sound, Count, ChainFind, Installed, Union, Grown, PowerOfTwo, Tight;
      if Rehashing() { RehashStep(); }
      var index := KeyIndex(key, canResize);
      if index == -1 { return false; }
      ghost var a0, a1 := t0, t1;
      Link(index, Entry(key, val));
      return true;
    }

    /** Put a new entry in front of its chain, in the table for new entries. */
    method Link(index: nat, e: Entry<K, V>)
      requires Valid() && t0 != [] && e.key !in m && index == hash(e.key) % (if Rehashing() then |t1| else |t0|)
      modifies this`t0, this`used0, this`t1, this`used1, this`m
      ensures Valid() && m == old(m)[e.key := e.val] && used0 + used1 == old(used0) + old(used1) + 1
      ensures Grown(old(t0), old(t1), t0, t1, hash, e) && |t0| == |old(t0)| && |t1| == |old(t1)|
    {
      hide Find, Sound, Count, PowerOfTwo, ChainFind;
      AddFacts(t0, t1, hash, m, e);
      m := m[e.key := e.val];
      if Rehashing() {
        t1 := t1[index := [e] + t1[index]];
        used1 := used1 + 1;
      } else {
        t0 := t0[index := [e] + t0[index]];
        used0 := used0 + 1;
      }
    }

    /** dictFind, with the value of the entry it returns. */
    method Lookup(key: K) returns (r: Option<V>)
      requires Valid()
      modifies this`t0, this`used0, this`t1, this`used1, this`rehashidx
      ensures Valid() && used0 + used1 == old(used0) + old(used1)
      ensures r == if key in m then Some(m[key]) else None
      ensures iterators > 0 ==> t0 == old(t0) && t1 == old(t1)
      ensures iterators == 0 && old(Rehashing()) && m != map[] ==>
        if CanEnd(old(t0), old(rehashidx), 1) then !Rehashing() else rehashidx > old(rehashidx)
    {
      hide CanEnd, PowerOfTwo;
      if used0 + used1 == 0 {
        EmptyMap(t0, t1, hash, m, key);
        NoneThere(t0, t1, hash, m);
        return None;
      }
      UsedTable(t0, t1);
      if Rehashing() { RehashStep(); }
      var table, i, pos := Locate(key);
      hide Find, Sound, Count, PowerOfTwo, ChainFind;
      ghost var fact := Agrees(Find(t0, hash, key), Find(t1, hash, key), m, key);
      return if table == 2 then None else if table == 0 then Some(t0[i][pos].val) else Some(t1[i][pos].val);
    }

    /** dictReplace: true when the key is new, else its value is overwritten. */
    method Replace(key: K, val: V, canResize: bool) returns (added: bool)
      requires Valid() && used0 + used1 <= LONG_MAX / 4
      modifies this
      ensures Valid() && iterators == old(iterators)
      ensures added <==> key !in old(m)
      ensures m == old(m)[key := val]
      ensures used0 + used1 == old(used0) + old(used1) + if added then 1 else 0
    {
      added := Add(key, val, canResize);
      if added { return; }
      if used0 + used1 == 0 { EmptyMap(t0, t1, hash, m, key); }
      UsedTable(t0, t1);
      if Rehashing() { RehashStep(); }
      SetValue(key, val);
    }

    /** dictSetVal on the entry dictFind returned. */
    method SetValue(key: K, val: V)
      requires Valid() && t0 != [] && key in m
      modifies this`t0, this`t1, this`m
      ensures Valid() && m == old(m)[key := val]
    {
      var table, i, pos := Locate(key);
      ghost var fact := Agrees(Find(t0, hash, key), Find(t1, hash, key), m, key);
      hide Find, Sound, Count, PowerOfTwo, ChainFind, Union;
      if table == 0 {
        SetIn(t0, t1, hash, m, i, pos, val);
        t0 := t0[i := t0[i][pos := Entry(key, val)]];
      } else {
        UnionSwap(t0, t1, hash, m);
        SetIn(t1, t0, hash, m, i, pos, val);
        t1 := t1[i := t1[i][pos := Entry(key, val)]];
        UnionSwap(t1, t0, hash, m[key := val]);
      }
      m := m[key := val];
    }

    /** dictGenericDelete. */
    method Remove(key: K) returns (ok: bool)
      requires Valid()
      modifies this
      ensures Valid() && iterators == old(iterators)
      ensures ok <==> key in old(m)
      ensures m == old(m) - {key}
      ensures used0 + used1 == old(used0) + old(used1) - if ok then 1 else 0
      ensures iterators > 0 ==> if ok then Dropped(old(t0), old(t1), t0, t1, key) else t0 == old(t0) && t1 == old(t1)
      ensures iterators == 0 && old(Rehashing()) ==>
        if CanEnd(old(t0), old(rehashidx), 1) then !Rehashing() else rehashidx > old(rehashidx)
    {
      hide CanEnd, PowerOfTwo;
      if |t0| == 0 {
        EmptyFacts(t0, hash);
        EmptyMap(t0, t1, hash, m, key);
        return false;
      }
      if Rehashing() { RehashStep(); }
      ok := Unlink(key);
    }

    /** Find the entry, take it out of its chain and count it out. */
    method Unlink(key: K) returns (ok: bool)
      requires Valid() && t0 != []
      modifies this`t0, this`used0, this`t1, this`used1, this`m
      ensures Valid() && (ok <==> key in old(m)) && m == old(m) - {key}
      ensures used0 + used1 == old(used0) + old(used1) - if ok then 1 else 0
      ensures if ok then Dropped(old(t0), old(t1), t0, t1, key) else t0 == old(t0) && t1 == old(t1)
    {
      var table, i, pos := Locate(key);
      ghost var fact := Agrees(Find(t0, hash, key), Find(t1, hash, key), m, key);
      if table == 2 { return false; }
      hide Find, Sound, Count, PowerOfTwo, ChainFind, Union;
      if table == 0 {
        UnlinkIn(t0, t1, hash, m, i, pos);
        CountPositive(t0, i);
        t0 := t0[i := t0[i][..pos] + t0[i][pos + 1..]];
        used0 := used0 - 1;
      } else {
        UnionSwap(t0, t1, hash, m);
        UnlinkIn(t1, t0, hash, m, i, pos);
        CountPositive(t1, i);
        t1 := t1[i := t1[i][..pos] + t1[i][pos + 1..]];
        used1 := used1 - 1;
        UnionSwap(t1, t0, hash, m - {key});
      }
      m := m - {key};
      return true;
    }
  }

  lemma NoneThere<K(!new), V>(t0: Table<K, V>, t1: Table<K, V>, hash: K -> nat, m: map<K, V>)
    requires Union(t0, t1, hash, m) && Count(t0) + Count(t1) == 0
    ensures m == map[]
  {
    if m != map[] {
      var key :| key in m;
      EmptyMap(t0, t1, hash, m, key);
    }
  }

  lemma NoTable<K, V>(hash: K -> nat)
    ensures Sound<K, V>([], hash) && Count<K, V>([]) == 0
  {}

  lemma WalkStart<K, V>(t: Table<K, V>, i: nat)
    requires i <= |t| && forall k :: 0 <= k < i ==> t[k] == []
    ensures Walk(t, t, i, i, 0, 0)
  {}

  /** Past bucket j, whether it was empty or is moved. */
  lemma WalkStep<K, V>(t: Table<K, V>, cur: Table<K, V>, i: nat, j: int, full: int, empty: int)
    requires Walk(t, cur, i, j, full, empty) && j < |cur|
    ensures cur[j] == [] ==> Walk(t, cur, i, j + 1, full, empty + 1)
    ensures cur[j] != [] ==> Walk(t, cur[j := []], i, j + 1, full + 1, empty)
  {
    assert cur[j] == cur[j..][0] == t[j..][0] == t[j];
    assert cur[j + 1..] == cur[j..][1..] && t[j + 1..] == t[j..][1..];
  }

  lemma WalkStops<K, V>(t: Table<K, V>, cur: Table<K, V>, i: nat, j: nat, n: nat, full: int, empty: int)
    requires Walk(t, cur, i, j, full, empty) && Count(cur) > 0
    requires (full == n && (empty < 10 * n || (n == 0 && empty == 0))) || (empty == 10 * n && full < n)
    ensures |cur| == |t| && j - i == full + empty && cur[j..] == t[j..] && forall k :: 0 <= k < j ==> cur[k] == []
    ensures Passed(t, i, j, n) && !CanEnd(t, i, n)
  {
    CountZero(cur);
    var l :| 0 <= l < |cur| && cur[l] != [];
    assert t[l] == t[j..][l - j] == cur[j..][l - j];
    hide Passed, CanEnd, Fulls, Empties;
    NotYet(t, i, j, n, l);
  }

  lemma WalkEnds<K, V>(t: Table<K, V>, cur: Table<K, V>, i: nat, j: nat, n: nat, full: int, empty: int)
    requires Walk(t, cur, i, j, full, empty) && Count(cur) == 0
    requires full <= n && (n == 0 || empty < 10 * n) && (n == 0 ==> empty == 0)
    ensures |cur| == |t| && CanEnd(t, i, n)
  {
    CountZero(cur);
    hide CanEnd, Fulls, Empties;
    forall l | j <= l < |t|
      ensures |t[l]| == 0
    {
      assert t[l] == t[j..][l - j] == cur[j..][l - j] == cur[l];
    }
    AtEnd(t, i, j, n);
  }

  /** An unfinished rehash has a non-empty bucket at or after rehashidx. */
  lemma NonEmptyAhead<K, V>(t: Table<K, V>, r: int)
    requires Count(t) > 0 && 0 <= r <= |t| && forall i :: 0 <= i < r ==> t[i] == []
    ensures r < |t|
  {
    CountZero(t);
  }

  lemma CountPositive<K, V>(t: Table<K, V>, i: nat)
    requires i < |t| && t[i] != []
    ensures Count(t) > 0
  {
    CountZero(t);
  }

  /** The walk along one chain. */
  method Search<K(==), V>(c: Chain<K, V>, key: K) returns (found: bool, pos: nat)
    ensures found ==> pos < |c| && c[pos].key == key && ChainFind(c, key) == Some(c[pos].val)
    ensures !found ==> ChainFind(c, key) == None
  {
    pos := 0;
    while pos < |c|
      invariant pos <= |c| && ChainFind(c, key) == ChainFind(c[pos..], key)
    {
      if c[pos].key == key { return true, pos; }
      assert c[pos..][1..] == c[pos + 1..];
      pos := pos + 1;
    }
    return false, pos;
  }

  /** Linking a new key into either table is the map update. */
  lemma AddFacts<K(!new), V>(t0: Table<K, V>, t1: Table<K, V>, hash: K -> nat, m: map<K, V>, e: Entry<K, V>)
    requires Union(t0, t1, hash, m) && Sound(t0, hash) && Sound(t1, hash) && e.key !in m && t0 != []
    ensures var i := hash(e.key) % |t0|;
            var u := t0[i := [e] + t0[i]];
            Union(u, t1, hash, m[e.key := e.val]) && Sound(u, hash) && Count(u) == Count(t0) + 1
    ensures t1 != [] ==>
            var i := hash(e.key) % |t1|;
            var u := t1[i := [e] + t1[i]];
            Union(t0, u, hash, m[e.key := e.val]) && Sound(u, hash) && Count(u) == Count(t1) + 1
  {
    assert Agrees(Find(t0, hash, e.key), Find(t1, hash, e.key), m, e.key);
    LinkFacts(t0, hash, e);
    if t1 != [] { LinkFacts(t1, hash, e); }
    hide Find, Sound, Count, ChainFind;
    var u0 := t0[hash(e.key) % |t0| := [e] + t0[hash(e.key) % |t0|]];
    forall key
      ensures Agrees(Find(u0, hash, key), Find(t1, hash, key), m[e.key := e.val], key)
    {
      assert Agrees(Find(t0, hash, key), Find(t1, hash, key), m, key);
    }
    if t1 != [] {
      var u1 := t1[hash(e.key) % |t1| := [e] + t1[hash(e.key) % |t1|]];
      forall key
        ensures Agrees(Find(t0, hash, key), Find(u1, hash, key), m[e.key := e.val], key)
      {
        assert Agrees(Find(t0, hash, key), Find(t1, hash, key), m, key);
      }
    }
  }

  lemma EmptyMap<K(!new), V>(t0: Table<K, V>, t1: Table<K, V>, hash: K -> nat, m: map<K, V>, key: K)
    requires Union(t0, t1, hash, m) && Count(t0) == 0 && Count(t1) == 0
    ensures key !in m
  {
    CountZero(t0);
    CountZero(t1);
    EmptyFacts(t0, hash);
    EmptyFacts(t1, hash);
    assert Agrees(Find(t0, hash, key), Find(t1, hash, key), m, key);
  }

  lemma UsedTable<K, V>(t0: Table<K, V>, t1: Table<K, V>)
    requires Count(t0) + Count(t1) > 0 && (t0 == [] ==> t1 == [])
    ensures t0 != []
  {}

  lemma UnionSwap<K(!new), V>(t0: Table<K, V>, t1: Table<K, V>, hash: K -> nat, m: map<K, V>)
    requires Union(t0, t1, hash, m)
    ensures Union(t1, t0, hash, m)
  {
    hide Find;
    forall key
      ensures Agrees(Find(t1, hash, key), Find(t0, hash, key), m, key)
    {
      assert Agrees(Find(t0, hash, key), Find(t1, hash, key), m, key);
    }
  }

  /** Overwriting the value where the key was found is the map update. */
  lemma SetIn<K(!new), V>(t: Table<K, V>, other: Table<K, V>, hash: K -> nat, m: map<K, V>, i: nat, pos: nat, val: V)
    requires Union(t, other, hash, m) && Sound(t, hash) && i < |t| && pos < |t[i]|
    requires Find(t, hash, t[i][pos].key) != None
    ensures var k := t[i][pos].key;
            var u := t[i := t[i][pos := Entry(k, val)]];
            Sound(u, hash) && Count(u) == Count(t) && Union(u, other, hash, m[k := val])
  {
    var k := t[i][pos].key;
    SetFacts(t, hash, i, pos, val);
    assert Agrees(Find(t, hash, k), Find(other, hash, k), m, k);
    hide Find, Sound, Count, ChainFind;
    var u := t[i := t[i][pos := Entry(k, val)]];
    forall key
      ensures Agrees(Find(u, hash, key), Find(other, hash, key), m[k := val], key)
    {
      assert Agrees(Find(t, hash, key), Find(other, hash, key), m, key);
    }
  }

  /** Unlinking the entry where the key was found removes it from the map. */
  lemma UnlinkIn<K(!new), V>(t: Table<K, V>, other: Table<K, V>, hash: K -> nat, m: map<K, V>, i: nat, pos: nat)
    requires Union(t, other, hash, m) && Sound(t, hash) && i < |t| && pos < |t[i]|
    requires Find(t, hash, t[i][pos].key) != None
    ensures var u := t[i := t[i][..pos] + t[i][pos + 1..]];
            Sound(u, hash) && Count(u) == Count(t) - 1 && Union(u, other, hash, m - {t[i][pos].key})
  {
    var k := t[i][pos].key;
    UnlinkFacts(t, hash, i, pos);
    assert Agrees(Find(t, hash, k), Find(other, hash, k), m, k);
    hide Find, Sound, Count, ChainFind;
    var u := t[i := t[i][..pos] + t[i][pos + 1..]];
    forall key
      ensures Agrees(Find(u, hash, key), Find(other, hash, key), m - {k}, key)
    {
      assert Agrees(Find(t, hash, key), Find(other, hash, key), m, key);
    }
  }
}
