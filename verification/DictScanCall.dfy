// dictScan on a dictionary (dict.c).
module DictScanCall {
  import opened Options
  import opened DictTable
  import opened Dict
  import opened DictScan
  import R = DictRev

  // -------------------------------------------------------------- dictScan()

  /** All entries of a chain are among those passed to the callback. */
  ghost predicate Emitted<K, V>(c: Chain<K, V>, out: seq<Entry<K, V>>) {
    forall j :: 0 <= j < |c| ==> c[j] in out
  }

  /** Everything passed to the callback is an entry of the dictionary. */
  ghost predicate Genuine<K, V>(out: seq<Entry<K, V>>, m: map<K, V>) {
    forall e :: e in out ==> e.key in m && m[e.key] == e.val
  }

  /** Every entry the call is to reach is passed to the callback. */
  ghost predicate Served<K(!new), V>(c: Call, v: nat, hash: K -> nat, m: map<K, V>, out: seq<Entry<K, V>>)
    requires c.Ok()
  {
    forall key :: key in m && Reaches(c, v, hash(key)) ==> Entry(key, m[key]) in out
  }

  /** The sizes of the two tables at a call, smaller first. */
  ghost predicate Sizes<K(!new), V>(c: Call, d: Dict<K, V>)
    reads d
  {
    && c.Ok() && c.rehashing == d.Rehashing()
    && if d.Rehashing() then {Pow2(c.k0), Pow2(c.k1)} == {|d.t0|, |d.t1|} else Pow2(c.k0) == |d.t0|
  }

  /** The buckets of the larger table that expand bucket v, up to middle bits n. */
  ghost predicate Covers<K, V>(t: Table<K, V>, out: seq<Entry<K, V>>, v: nat, k0: nat, k1: nat, n: nat)
    requires k0 <= k1
  {
    forall i :: 0 <= i < |t| && Lo(i, k0) == Lo(v, k0) && Mid(v, k0, k1) <= Mid(i, k0, k1) < n ==> Emitted(t[i], out)
  }

  /** The entries of t whose hashes a rehashing call visits. */
  ghost predicate Visits<K, V>(t: Table<K, V>, hash: K -> nat, v: nat, k0: nat, k1: nat, e: Entry<K, V>)
    requires k0 <= k1
  {
    Find(t, hash, e.key) == Some(e.val) && Visited(v, k0, k1, hash(e.key))
  }

  /** Nothing but these entries was added to out0. */
  ghost predicate Only<K(!new), V(!new)>(t: Table<K, V>, hash: K -> nat, out0: seq<Entry<K, V>>, out: seq<Entry<K, V>>, v: nat, k0: nat, k1: nat)
    requires k0 <= k1
  {
    forall e :: e in out ==> e in out0 || Visits(t, hash, v, k0, k1, e)
  }

  /** The table a call walks first, the smaller one, and the other one. */
  function SmallOf<K, V>(t0: Table<K, V>, t1: Table<K, V>): Table<K, V> {
    if t1 == [] || |t0| <= |t1| then t0 else t1
  }

  function LargeOf<K, V>(t0: Table<K, V>, t1: Table<K, V>): Table<K, V> {
    if t1 == [] || |t0| <= |t1| then t1 else t0
  }

  /** Exactly what is passed to the callback: the entries of the smaller table
      at the cursor's bucket and the visited ones of the larger table. */
  ghost predicate EmitsExactly<K(!new), V(!new)>(c: Call, v: nat, hash: K -> nat, small: Table<K, V>, large: Table<K, V>, out: seq<Entry<K, V>>)
    requires c.Ok()
  {
    forall e: Entry<K, V> :: e in out <==>
      || (Find(small, hash, e.key) == Some(e.val) && Lo(hash(e.key), c.k0) == Lo(v, c.k0))
      || (c.rehashing && Visits(large, hash, v, c.k0, c.k1, e))
  }

  lemma {:induction false} ChainFindIn<K, V>(c: Chain<K, V>, key: K, v: V)
    requires ChainFind(c, key) == Some(v)
    ensures Entry(key, v) in c
  {
    if c[0].key == key { assert c[0] == Entry(key, v); } else { ChainFindIn(c[1..], key, v); }
  }

  lemma FoundEmitted<K, V>(t: Table<K, V>, hash: K -> nat, key: K, v: V, out: seq<Entry<K, V>>)
    requires |t| > 0 && Find(t, hash, key) == Some(v) && Emitted(t[hash(key) % |t|], out)
    ensures Entry(key, v) in out
  {
    ChainFindIn(t[hash(key) % |t|], key, v);
  }

  /** A bucket holds genuine entries only. */
  lemma BucketGenuine<K(!new), V>(t: Table<K, V>, other: Table<K, V>, hash: K -> nat, m: map<K, V>, i: nat)
    requires Sound(t, hash) && Union(t, other, hash, m) && i < |t|
    ensures Genuine(t[i], m)
  {
    forall e | e in t[i]
      ensures e.key in m && m[e.key] == e.val
    {
      var j :| 0 <= j < |t[i]| && t[i][j] == e;
      ChainFindAt(t[i], j);
      assert Find(t, hash, e.key) == Some(e.val);
      assert Agrees(Find(t, hash, e.key), Find(other, hash, e.key), m, e.key);
    }
  }

  lemma GenuineAdd<K, V>(a: seq<Entry<K, V>>, b: seq<Entry<K, V>>, m: map<K, V>)
    requires Genuine(a, m) && Genuine(b, m)
    ensures Genuine(a + b, m)
  {}

  /** A bucket number is its middle and low bits. */
  lemma SameBucket(i: nat, w: nat, k0: nat, k1: nat)
    requires k0 <= k1 && i < Pow2(k1) && Lo(i, k0) == Lo(w, k0) && Mid(i, k0, k1) == Mid(w, k0, k1)
    ensures i == Lo(w, k1)
  {
    hide Hi, Pow2, Mul, Mid, Lo;
    MidBits(i, k0, k1);
    MidBits(w, k0, k1);
    SmallLo(i, k1);
  }

  lemma SmallLo(i: nat, k: nat)
    requires i < Pow2(k)
    ensures Lo(i, k) == i
  {
    hide Mul, Lo, Hi, Pow2;
    MulFacts(0, Pow2(k));
    HiLo(i, k, 0, i);
  }

  lemma CoverStart<K, V>(t: Table<K, V>, out: seq<Entry<K, V>>, v: nat, k0: nat, k1: nat)
    requires k0 <= k1
    ensures Covers(t, out, v, k0, k1, Mid(v, k0, k1))
  {}

  lemma CoverStep<K, V>(t: Table<K, V>, out: seq<Entry<K, V>>, v: nat, k0: nat, k1: nat, w: nat)
    requires k0 <= k1 && |t| == Pow2(k1) && Lo(w, k0) == Lo(v, k0)
    requires Covers(t, out, v, k0, k1, Mid(w, k0, k1))
    ensures Covers(t, out + t[w % |t|], v, k0, k1, Mid(w, k0, k1) + 1)
  {
    hide Hi, Pow2, Mul, Mid;
    var more := out + t[w % |t|];
    forall i | 0 <= i < |t| && Lo(i, k0) == Lo(v, k0) && Mid(v, k0, k1) <= Mid(i, k0, k1) < Mid(w, k0, k1) + 1
      ensures Emitted(t[i], more)
    {
      if Mid(i, k0, k1) == Mid(w, k0, k1) { SameBucket(i, w, k0, k1); }
    }
  }

  /** A bucket holds the entries found under its hashes. */
  lemma InBucket<K, V>(t: Table<K, V>, hash: K -> nat, i: nat, e: Entry<K, V>)
    requires Sound(t, hash) && i < |t|
    ensures e in t[i] <==> Find(t, hash, e.key) == Some(e.val) && hash(e.key) % |t| == i
  {
    if e in t[i] {
      var j :| 0 <= j < |t[i]| && t[i][j] == e;
      ChainFindAt(t[i], j);
    }
    if Find(t, hash, e.key) == Some(e.val) && hash(e.key) % |t| == i { ChainFindIn(t[i], e.key, e.val); }
  }

  lemma OnlyStep<K(!new), V(!new)>(t: Table<K, V>, hash: K -> nat, out0: seq<Entry<K, V>>, out: seq<Entry<K, V>>, v: nat, k0: nat, k1: nat, w: nat)
    requires k0 <= k1 && |t| == Pow2(k1) && Sound(t, hash) && Lo(w, k0) == Lo(v, k0) && Mid(w, k0, k1) >= Mid(v, k0, k1)
    requires Only(t, hash, out0, out, v, k0, k1)
    ensures Only(t, hash, out0, out + t[w % |t|], v, k0, k1)
  {
    hide Hi, Pow2, Mul, Mid, Find, Sound;
    forall e | e in t[w % |t|] ensures Visits(t, hash, v, k0, k1, e) {
      InBucket(t, hash, w % |t|, e);
      SameLow(hash(e.key), w, k0, k1);
    }
  }

  /** Everything passed to the callback so far is in the other table or in a
      bucket of this one with smaller middle bits than n. */
  ghost predicate Earlier<K(!new), V(!new)>(other: Table<K, V>, hash: K -> nat, out: seq<Entry<K, V>>, k0: nat, k1: nat, n: nat)
    requires k0 <= k1
  {
    forall e :: e in out ==> Find(other, hash, e.key) != None || Mid(hash(e.key), k0, k1) < n
  }

  /** The next expansion repeats no key. */
  lemma FreshStep<K(!new), V(!new)>(t: Table<K, V>, other: Table<K, V>, hash: K -> nat, m: map<K, V>, out: seq<Entry<K, V>>,
                                    k0: nat, k1: nat, w: nat)
    requires k0 <= k1 && |t| == Pow2(k1) && Sound(t, hash) && Union(t, other, hash, m)
    requires Distinct(out) && Earlier(other, hash, out, k0, k1, Mid(w, k0, k1))
    ensures Distinct(out + t[w % |t|]) && Earlier(other, hash, out + t[w % |t|], k0, k1, Mid(w, k0, k1) + 1)
  {
    var c := t[w % |t|];
    assert Distinct(c);
    hide Hi, Pow2, Mul, Mid, Find, Sound;
    forall e | e in c ensures Mid(hash(e.key), k0, k1) == Mid(w, k0, k1) && Find(other, hash, e.key) == None {
      InBucket(t, hash, w % |t|, e);
      SameLow(hash(e.key), w, k0, k1);
      assert Agrees(Find(t, hash, e.key), Find(other, hash, e.key), m, e.key);
    }
    hide Union;
    var all := out + c;
    forall i, j | 0 <= i < j < |all|
      ensures all[i].key != all[j].key
    {
      if i < |out| <= j { assert all[i] in out && all[j] in c; }
    }
  }

  /** One bucket of a table, before anything else. */
  lemma FirstBucket<K(!new), V(!new)>(t: Table<K, V>, hash: K -> nat, i: nat)
    requires Sound(t, hash) && i < |t|
    ensures Distinct(t[i]) && forall e :: e in t[i] ==> Find(t, hash, e.key) != None
  {
    forall e | e in t[i] ensures Find(t, hash, e.key) != None { InBucket(t, hash, i, e); }
  }

  /** Equal in the larger mask, equal in its parts. */
  lemma SameLow(h: nat, w: nat, k0: nat, k1: nat)
    requires k0 <= k1 && h % Pow2(k1) == w % Pow2(k1)
    ensures Lo(h, k0) == Lo(w, k0) && Mid(h, k0, k1) == Mid(w, k0, k1)
  {
    hide Hi, Pow2, Mul, Mid;
    MidBits(h, k0, k1);
    MidBits(w, k0, k1);
    LoMid(h, k0, k1);
    LoMid(w, k0, k1);
  }

  /** With every expansion covered the bucket of each hash to be reached is out. */
  lemma CoverEnd<K, V>(t: Table<K, V>, out: seq<Entry<K, V>>, v: nat, k0: nat, k1: nat, h: nat)
    requires k0 <= k1 <= W && |t| == Pow2(k1) && Covers(t, out, v, k0, k1, Pow2(k1 - k0))
    requires Visited(v, k0, k1, h)
    ensures Emitted(t[h % |t|], out)
  {
    hide Hi, Pow2, Mul, Mid, Emitted;
    MidBits(h, k0, k1);
    LoMid(h, k0, k1);
    MidBound(h, k0, k1);
  }

  lemma LoMid(h: nat, k0: nat, k1: nat)
    requires k0 <= k1
    ensures Mid(Lo(h, k1), k0, k1) == Mid(h, k0, k1)
  {
    hide Hi, Mul;
    SmallLo(Lo(h, k1), k1);
  }

  method Emit<K(!new), V>(d: Dict<K, V>, t: Table<K, V>, ghost other: Table<K, V>, v: nat, out: seq<Entry<K, V>>)
    returns (r: seq<Entry<K, V>>)
    requires |t| > 0 && Sound(t, d.hash) && Union(t, other, d.hash, d.m) && Genuine(out, d.m)
    ensures r == out + t[v % |t|] && Genuine(r, d.m)
  {
    var i := v % |t|;
    BucketGenuine(t, other, d.hash, d.m, i);
    GenuineAdd(out, t[i], d.m);
    var c := t[i];
    r := out;
    var j := 0;
    hide Genuine, Sound, Union;
    while j < |c|
      invariant j <= |c| && r == out + c[..j]
    {
      r := r + [c[j]];
      j := j + 1;
    }
  }

  /** The end of dictScan for a table of p = m0 + 1 buckets. */
  function Advance(v: nat, p: nat): nat
    requires 0 < p <= Pow2(W)
  {
    Rev(Lo(Rev(v % p + (Pow2(W) - p), W) + 1, W), W)
  }

  lemma AdvanceIsNext(v: nat, k: nat)
    requires k <= W
    ensures 0 < Pow2(k) <= Pow2(W) && Advance(v, Pow2(k)) == Next(v, k)
  {
    PowMono(k, W);
    hide Rev;
  }

  /** One turn of the expansion loop for a smaller table of p buckets. */
  function NextExpansion(v: nat, p: nat): nat
    requires p > 0
  {
    Mul(p, v / p + 1) % Pow2(W) + v % p
  }

  lemma ExpansionIsBump(v: nat, k: nat)
    ensures NextExpansion(v, Pow2(k)) == Bump(v, k)
  {
    hide Pow2, Mul;
  }

  /** The bits of v that only the larger mask covers are all zero. */
  lemma MaskDifference(v: nat, k0: nat, k1: nat)
    requires k0 <= k1
    ensures v % Pow2(k1) / Pow2(k0) == Mid(v, k0, k1)
  {
    hide Pow2;
  }

  /** The do-while loop over the expansions of the cursor in the larger table. */
  method Expansions<K(!new), V(!new)>(d: Dict<K, V>, t: Table<K, V>, ghost other: Table<K, V>, v: nat, p: nat,
                                out0: seq<Entry<K, V>>, ghost k0: nat, ghost k1: nat)
    returns (w: nat, out: seq<Entry<K, V>>)
    requires k0 <= k1 <= W && p == Pow2(k0) && |t| == Pow2(k1)
    requires Sound(t, d.hash) && Union(t, other, d.hash, d.m) && Genuine(out0, d.m)
    requires Distinct(out0) && forall e :: e in out0 ==> Find(other, d.hash, e.key) != None
    ensures Genuine(out, d.m) && out0 <= out && Lo(w, k0) == Lo(v, k0) && Distinct(out)
    ensures Covers(t, out, v, k0, k1, Pow2(k1 - k0)) && Only(t, d.hash, out0, out, v, k0, k1)
  {
    EarlierStart(other, d.hash, out0, v, k0, k1);
    hide Sound, Union, Genuine, Covers, Lo, Pow2, Mid, Bump, Find, NextExpansion, Visits, Distinct, Earlier;
    w, out := v, out0;
    var first := true;
    CoverStart(t, out, v, k0, k1);
    while first || w % |t| / p != 0
      invariant Genuine(out, d.m) && out0 <= out && Lo(w, k0) == Lo(v, k0)
      invariant if first || Mid(w, k0, k1) != 0 then Covers(t, out, v, k0, k1, Mid(w, k0, k1))
                else Covers(t, out, v, k0, k1, Pow2(k1 - k0))
      invariant Only(t, d.hash, out0, out, v, k0, k1) && Distinct(out)
      invariant first || Mid(w, k0, k1) != 0 ==> Earlier(other, d.hash, out, k0, k1, Mid(w, k0, k1))
      invariant first || Mid(w, k0, k1) != 0 ==> Mid(w, k0, k1) >= Mid(v, k0, k1)
      decreases first || Mid(w, k0, k1) != 0, Pow2(k1 - k0) - Mid(w, k0, k1)
    {
      MaskDifference(w, k0, k1);
      CoverStep(t, out, v, k0, k1, w);
      OnlyStep(t, d.hash, out0, out, v, k0, k1, w);
      FreshStep(t, other, d.hash, d.m, out, k0, k1, w);
      MidBound(w, k0, k1);
      out := Emit(d, t, other, w, out);
      BumpStep(w, k0, k1);
      ExpansionIsBump(w, k0);
      w := NextExpansion(w, p);
      first := false;
      MaskDifference(w, k0, k1);
    }
    MaskDifference(w, k0, k1);
  }

  lemma EarlierStart<K(!new), V(!new)>(other: Table<K, V>, hash: K -> nat, out: seq<Entry<K, V>>, v: nat, k0: nat, k1: nat)
    requires k0 <= k1 && forall e :: e in out ==> Find(other, hash, e.key) != None
    ensures Earlier(other, hash, out, k0, k1, Mid(v, k0, k1))
  {}

  lemma NextDependsOnLow(v: nat, w: nat, k: nat)
    requires k <= W && Lo(v, k) == Lo(w, k)
    ensures Next(v, k) == Next(w, k)
  {
    hide Rev, Pow2;
    NextLow(v, k);
    NextLow(w, k);
  }

  /** Without rehashing: the bucket at the cursor holds all there is to reach. */
  lemma ServedOne<K(!new), V>(t: Table<K, V>, hash: K -> nat, m: map<K, V>, v: nat, c: Call, out: seq<Entry<K, V>>)
    requires Union(t, [], hash, m) && c.Ok() && !c.rehashing && |t| == Pow2(c.k0)
    requires Emitted(t[v % |t|], out)
    ensures Served(c, v, hash, m, out)
  {
    hide Pow2, Emitted, Find;
    forall key | key in m && Reaches(c, v, hash(key))
      ensures Entry(key, m[key]) in out
    {
      assert Agrees(Find(t, hash, key), Find([], hash, key), m, key);
      NothingFound(hash, key, m[key]);
      FoundEmitted(t, hash, key, m[key], out);
    }
  }

  lemma NothingFound<K, V>(hash: K -> nat, key: K, v: V)
    ensures Find([], hash, key) != Some(v)
  {}

  /** During rehashing an entry is in the bucket of the smaller table or in an
      expansion of it in the larger one. */
  lemma ServedTwo<K(!new), V>(small: Table<K, V>, large: Table<K, V>, hash: K -> nat, m: map<K, V>, v: nat, c: Call,
                              out: seq<Entry<K, V>>)
    requires Union(small, large, hash, m) && c.Ok() && c.rehashing && |small| == Pow2(c.k0) && |large| == Pow2(c.k1)
    requires Emitted(small[v % |small|], out) && Covers(large, out, v, c.k0, c.k1, Pow2(c.k1 - c.k0))
    ensures Served(c, v, hash, m, out)
  {
    hide Pow2, Emitted, Find, Covers, Visited;
    forall key | key in m && Reaches(c, v, hash(key))
      ensures Entry(key, m[key]) in out
    {
      assert Agrees(Find(small, hash, key), Find(large, hash, key), m, key);
      if Find(small, hash, key) != None {
        FoundEmitted(small, hash, key, m[key], out);
      } else {
        CoverEnd(large, out, v, c.k0, c.k1, hash(key));
        FoundEmitted(large, hash, key, m[key], out);
      }
    }
  }

  /** Both bounds together, without rehashing and with it. */
  lemma ExactOne<K(!new), V(!new)>(t: Table<K, V>, hash: K -> nat, v: nat, c: Call, out: seq<Entry<K, V>>)
    requires Sound(t, hash) && c.Ok() && !c.rehashing && |t| == Pow2(c.k0) && out == t[v % |t|]
    ensures EmitsExactly(c, v, hash, t, [], out)
  {
    hide Pow2, Find, Sound;
    forall e: Entry<K, V>
      ensures e in out <==> Find(t, hash, e.key) == Some(e.val) && Lo(hash(e.key), c.k0) == Lo(v, c.k0)
    {
      InBucket(t, hash, v % |t|, e);
    }
  }

  lemma ExactTwo<K(!new), V(!new)>(small: Table<K, V>, large: Table<K, V>, hash: K -> nat, v: nat, c: Call,
                                   first: seq<Entry<K, V>>, out: seq<Entry<K, V>>)
    requires Sound(small, hash) && Sound(large, hash)
    requires c.Ok() && c.rehashing && |small| == Pow2(c.k0) && |large| == Pow2(c.k1)
    requires first == small[v % |small|] && first <= out
    requires Covers(large, out, v, c.k0, c.k1, Pow2(c.k1 - c.k0)) && Only(large, hash, first, out, v, c.k0, c.k1)
    ensures EmitsExactly(c, v, hash, small, large, out)
  {
    hide Pow2, Find, Sound, Covers, Visited;
    forall e: Entry<K, V>
      ensures e in out <==>
        || (Find(small, hash, e.key) == Some(e.val) && Lo(hash(e.key), c.k0) == Lo(v, c.k0))
        || Visits(large, hash, v, c.k0, c.k1, e)
    {
      InBucket(small, hash, v % |small|, e);
      if e in first { PrefixIn(first, out, e); }
      if Visits(large, hash, v, c.k0, c.k1, e) {
        CoverEnd(large, out, v, c.k0, c.k1, hash(e.key));
        FoundEmitted(large, hash, e.key, e.val, out);
      }
    }
  }

  lemma PrefixIn<T>(a: seq<T>, b: seq<T>, e: T)
    requires a <= b && e in a
    ensures e in b
  {
    var j :| 0 <= j < |a| && a[j] == e;
    assert b[j] == e;
  }

  lemma EmittedPrefix<K, V>(c: Chain<K, V>, a: seq<Entry<K, V>>, b: seq<Entry<K, V>>)
    requires a <= b && c <= a
    ensures Emitted(c, b)
  {
    assert forall j :: 0 <= j < |c| ==> b[j] == c[j];
  }

  lemma Exponent(n: nat) returns (k: nat)
    requires PowerOfTwo(n) && n <= Pow2(W)
    ensures Pow2(k) == n && k <= W
  {
    k :| Pow2(k) == n;
    if k > W {
      PowMono(W + 1, k);
      PowSucc(W);
    }
  }

  lemma Exponents(a: nat, b: nat) returns (k0: nat, k1: nat)
    requires PowerOfTwo(a) && PowerOfTwo(b) && a <= b <= Pow2(W)
    ensures Pow2(k0) == a && Pow2(k1) == b && k0 <= k1 <= W
  {
    hide PowerOfTwo;
    k0 := Exponent(a);
    k1 := Exponent(b);
    if k1 < k0 {
      PowMono(k1 + 1, k0);
      PowSucc(k1);
    }
  }

  /** dictScan: the next cursor and the entries passed to the callback. */
  method Scan<K(!new), V(!new)>(d: Dict<K, V>, v: nat) returns (next: nat, out: seq<Entry<K, V>>, ghost call: Call)
    requires d.Valid() && v < Pow2(W)
    ensures d.m == map[] ==> next == 0 && out == []
    ensures Genuine(out, d.m) && call.Ok()
    ensures d.m != map[] ==> Sizes(call, d) && next == Next(v, call.k0) && Served(call, v, d.hash, d.m, out)
    ensures d.m != map[] ==> EmitsExactly(call, v, d.hash, SmallOf(d.t0, d.t1), LargeOf(d.t0, d.t1), out)
    ensures forall i, j :: 0 <= i < j < |out| ==> out[i].key != out[j].key
  {
    hide Pow2, Find, Count, Served, Covers, Lo, Sound, Genuine, EmitsExactly;
    if d.used0 + d.used1 == 0 {
      NoKeys(d);
      return 0, [], Call(0, 0, false);
    }
    HasKeys(d);
    WordHoldsSizes();
    if !d.Rehashing() {
      ghost var k := Exponent(|d.t0|);
      call := Call(k, k, false);
      FirstBucket(d.t0, d.hash, v % |d.t0|);
      out := Emit(d, d.t0, [], v, []);
      ServedOne(d.t0, d.hash, d.m, v, call, out);
      ExactOne(d.t0, d.hash, v, call, out);
      AdvanceIsNext(v, k);
      next := Advance(v, |d.t0|);
    } else {
      var small, large := d.t0, d.t1;
      UnionSwap(small, large, d.hash, d.m);
      if |small| > |large| { small, large := d.t1, d.t0; }
      next, out, call := ScanTwo(d, small, large, v);
    }
  }

  /** The cursor as the word that the caller holds. */
  method ScanWord<K(!new), V(!new)>(d: Dict<K, V>, v: bv64) returns (next: bv64, out: seq<Entry<K, V>>, ghost call: Call)
    requires d.Valid()
    ensures call.Ok() && (d.m == map[] ==> R.Value(next) == 0 && out == [])
    ensures d.m != map[] ==> Sizes(call, d) && R.Value(next) == Next(R.Value(v), call.k0)
    ensures d.m != map[] ==> EmitsExactly(call, R.Value(v), d.hash, SmallOf(d.t0, d.t1), LargeOf(d.t0, d.t1), out)
  {
    WordFits(v);
    hide Pow2, Find, Count, Served, Covers, Lo, Sound, Union, Genuine, EmitsExactly, Next, R.Value;
    var _, o, c := Scan(d, R.Value(v));
    out, call := o, c;
    if d.used0 + d.used1 == 0 {
      NoKeys(d);
      next := 0;
      return;
    }
    HasKeys(d);
    var size := |SmallOf(d.t0, d.t1)|;
    SmallSize(d, call);
    var m0 := R.MaskWord(size, call.k0);
    next := R.NextWord(v, m0, call.k0);
  }

  lemma WordFits(v: bv64)
    ensures R.Value(v) < Pow2(W) && R.Value(0) == 0
  {
    R.LowBound(v, 64);
    R.IndexWord();
    R.ZeroValue();
  }

  lemma SmallSize<K(!new), V>(d: Dict<K, V>, c: Call)
    requires Sizes(c, d) && (d.Rehashing() <==> d.t1 != [])
    ensures |SmallOf(d.t0, d.t1)| == Pow2(c.k0)
  {
    PowMono(c.k0, c.k1);
    hide Pow2;
    if d.Rehashing() {
      assert Pow2(c.k0) in {|d.t0|, |d.t1|} && Pow2(c.k1) in {|d.t0|, |d.t1|};
      assert |d.t0| in {Pow2(c.k0), Pow2(c.k1)} && |d.t1| in {Pow2(c.k0), Pow2(c.k1)};
    }
  }

  method ScanTwo<K(!new), V(!new)>(d: Dict<K, V>, small: Table<K, V>, large: Table<K, V>, v: nat)
    returns (next: nat, out: seq<Entry<K, V>>, ghost call: Call)
    requires Sound(small, d.hash) && Sound(large, d.hash) && Union(small, large, d.hash, d.m) && Union(large, small, d.hash, d.m)
    requires PowerOfTwo(|small|) && PowerOfTwo(|large|) && |small| <= |large| <= Pow2(W)
    ensures Genuine(out, d.m) && call.Ok() && call.rehashing && Pow2(call.k0) == |small| && Pow2(call.k1) == |large|
    ensures next == Next(v, call.k0) && Served(call, v, d.hash, d.m, out)
    ensures EmitsExactly(call, v, d.hash, small, large, out) && Distinct(out)
  {
    hide Pow2, Find, Served, Covers, Lo, Sound, Genuine, Union, PowerOfTwo, Advance, Only, EmitsExactly, Distinct;
    ghost var k0, k1 := Exponents(|small|, |large|);
    call := Call(k0, k1, true);
    NoneGenuine<K, V>(d.m);
    FirstBucket(small, d.hash, v % |small|);
    var first := Emit(d, small, large, v, []);
    assert first == small[v % |small|];
    var w;
    w, out := Expansions(d, large, small, v, |small|, first, k0, k1);
    EmittedPrefix(small[v % |small|], first, out);
    ServedTwo(small, large, d.hash, d.m, v, call, out);
    ExactTwo(small, large, d.hash, v, call, first, out);
    AdvanceIsNext(w, k0);
    NextDependsOnLow(v, w, k0);
    next := Advance(w, |small|);
  }

  lemma NoneGenuine<K, V>(m: map<K, V>)
    ensures Genuine([], m)
  {}

  lemma NoKeys<K(!new), V>(d: Dict<K, V>)
    requires d.Valid() && d.used0 + d.used1 == 0
    ensures d.m == map[] && Genuine([], d.m)
  {
    forall key: K
      ensures key !in d.m
    {
      EmptyMap(d.t0, d.t1, d.hash, d.m, key);
    }
  }

  lemma HasKeys<K(!new), V>(d: Dict<K, V>)
    requires d.Valid() && d.used0 + d.used1 != 0
    ensures d.m != map[] && d.t0 != [] && PowerOfTwo(|d.t0|) && Genuine([], d.m)
    ensures d.Rehashing() ==> PowerOfTwo(|d.t1|)
    ensures !d.Rehashing() ==> d.t1 == []
  {
    UsedTable(d.t0, d.t1);
    if d.used0 > 0 {
      SomeKey(d.t0, d.t1, d.hash, d.m);
    } else {
      UnionSwap(d.t0, d.t1, d.hash, d.m);
      SomeKey(d.t1, d.t0, d.hash, d.m);
    }
  }

  lemma SomeKey<K(!new), V>(t: Table<K, V>, other: Table<K, V>, hash: K -> nat, m: map<K, V>)
    requires Sound(t, hash) && Union(t, other, hash, m) && Count(t) > 0
    ensures m != map[]
  {
    CountZero(t);
    var i :| 0 <= i < |t| && t[i] != [];
    BucketGenuine(t, other, hash, m, i);
    assert t[i][0] in t[i];
  }

  lemma WordHoldsSizes()
    ensures LONG_MAX <= Pow2(W)
  {
    Powers();
    PowAdd(4, 4);
    PowAdd(8, 8);
    PowAdd(16, 16);
    PowAdd(32, 32);
    assert Pow2(8) == 256 && Pow2(16) == 0x1_0000 && Pow2(32) == 0x1_0000_0000;
  }
}
