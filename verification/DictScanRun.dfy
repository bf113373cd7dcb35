// Whole scans: calls of dictScan (dict.c) until the cursor is 0 again, with
// changes of the dictionary in between.
module DictScanRun {
  import opened Options
  import opened Sequences
  import opened DictTable
  import opened Dict
  import opened DictScan
  import opened DictScanCall

  // ------------------------------------------------------------ complete calls

  /** Whatever the tables of these sizes hold, the call passes every entry of the
      larger one to the callback that it is responsible for. */
  ghost predicate CallComplete(v: nat, k0: nat, k1: nat)
    requires k0 <= k1 <= W
  {
    forall hash: nat -> nat, small: Table<nat, bool>, large: Table<nat, bool>, out: seq<Entry<nat, bool>>, e: Entry<nat, bool> ::
      (|small| == Pow2(k0) && |large| == Pow2(k1) && Sound(small, hash) && Sound(large, hash)
       && EmitsExactly(Call(k0, k1, true), v, hash, small, large, out)
       && Find(large, hash, e.key) == Some(e.val) && Due(v, k0, hash(e.key))) ==> e in out
  }

  /** A call during rehashing emits all it is responsible for if and only if the
      bits of its cursor between the masks, plus one, are a power of two. */
  lemma CallCompleteIff(v: nat, k0: nat, k1: nat)
    requires k0 <= k1 <= W
    ensures CallComplete(v, k0, k1) <==> PowerOfTwo(Mid(v, k0, k1) + 1)
  {
    hide Due, Mid, PowerOfTwo, Pow2, Sound, Find, Visited, Lo;
    if PowerOfTwo(Mid(v, k0, k1) + 1) {
      forall hash: nat -> nat, small: Table<nat, bool>, large: Table<nat, bool>, out: seq<Entry<nat, bool>>, e: Entry<nat, bool> |
        EmitsExactly(Call(k0, k1, true), v, hash, small, large, out)
        && Find(large, hash, e.key) == Some(e.val) && Due(v, k0, hash(e.key))
        ensures e in out
      {
        CallCovers(v, k0, k1, hash(e.key));
      }
    } else {
      var h := CallMisses(v, k0, k1);
      var large := Alone(h, k1);
      AloneFacts(h, k1);
      var small := EmptyTable<nat, bool>(Pow2(k0));
      EmptyFacts(small, Own);
      assert EmitsExactly(Call(k0, k1, true), v, Own, small, large, []);
      assert Find(large, Own, Entry(h, true).key) == Some(Entry(h, true).val) && Due(v, k0, Own(h));
    }
  }

  /** Every number as its own hash. */
  function Own(h: nat): nat { h }

  /** A table with one entry. */
  function Alone(h: nat, k: nat): Table<nat, bool> {
    var t := EmptyTable<nat, bool>(Pow2(k));
    t[h % Pow2(k) := [Entry(h, true)]]
  }

  lemma AloneFacts(h: nat, k: nat)
    ensures var t := Alone(h, k);
            && |t| == Pow2(k) && Sound(t, Own)
            && forall key :: Find(t, Own, key) == if key == h then Some(true) else None
  {
    var t := EmptyTable<nat, bool>(Pow2(k));
    EmptyFacts(t, Own);
    LinkFacts(t, Own, Entry(h, true));
    hide Sound, Find, Pow2;
    assert [Entry(h, true)] + t[h % |t|] == [Entry(h, true)];
  }

  // ------------------------------------------------------------- whole scans

  /** What one call saw and did. */
  datatype Visit<K, V> = Visit(call: Call, t0: Table<K, V>, t1: Table<K, V>, m: map<K, V>, out: seq<Entry<K, V>>)

  /** Scan's contract for the visits of a run whose cursors are vs. */
  ghost predicate Scanned<K(!new), V(!new)>(run: seq<Visit<K, V>>, vs: seq<nat>, hash: K -> nat) {
    && |vs| == |run| + 1
    && forall i :: 0 <= i < |run| ==> Step(run[i], vs[i], vs[i + 1], hash)
  }

  ghost predicate Step<K(!new), V(!new)>(s: Visit<K, V>, v: nat, next: nat, hash: K -> nat) {
    s.call.Ok() && (s.m != map[] ==>
      && next == Next(v, s.call.k0) && Served(s.call, v, hash, s.m, s.out)
      && EmitsExactly(s.call, v, hash, SmallOf(s.t0, s.t1), LargeOf(s.t0, s.t1), s.out))
  }

  function CallsOf<K, V>(run: seq<Visit<K, V>>): (r: seq<Call>)
    ensures |r| == |run| && forall i :: 0 <= i < |r| ==> r[i] == run[i].call
  {
    seq(|run|, i requires 0 <= i < |run| => run[i].call)
  }

  lemma {:induction false} SameCursors<K(!new), V(!new)>(run: seq<Visit<K, V>>, vs: seq<nat>, hash: K -> nat, n: nat)
    requires Scanned(run, vs, hash) && n <= |run| && AllOk(CallsOf(run)) && vs[0] == 0
    requires forall i :: 0 <= i < |run| ==> run[i].m != map[]
    ensures Cursor(CallsOf(run), n) == vs[n]
  {
    hide Next, Served, EmitsExactly;
    if n > 0 { SameCursors(run, vs, hash, n - 1); }
  }

  /** A key present at every call of a whole scan is passed to the callback by
      one of them, whatever was added, deleted or rehashed between the calls,
      when the smaller size never halves twice before a rehashing call. */
  lemma PresentIsEmitted<K(!new), V(!new)>(run: seq<Visit<K, V>>, vs: seq<nat>, hash: K -> nat, key: K)
    requires Scanned(run, vs, hash) && |run| > 0 && vs[0] == 0 && vs[|run|] == 0
    requires forall i :: 0 <= i < |run| ==> key in run[i].m
    requires forall i :: 1 <= i < |run| && run[i].call.rehashing ==> run[i - 1].call.k0 <= run[i].call.k0 + 1
    ensures exists i :: 0 <= i < |run| && Entry(key, run[i].m[key]) in run[i].out
  {
    var calls := CallsOf(run);
    StepsOk(run, vs, hash);
    hide Next, Reaches, Guarded, Step, Cursor, CallsOf;
    GrowthIsGuarded(calls);
    SameCursors(run, vs, hash, |run|);
    ScanCoverage(calls, hash(key));
    var i :| 0 <= i < |calls| && Reaches(calls[i], Cursor(calls, i), hash(key));
    SameCursors(run, vs, hash, i);
    ReachedIsOut(run[i], vs[i], vs[i + 1], hash, key);
  }

  lemma StepsOk<K(!new), V(!new)>(run: seq<Visit<K, V>>, vs: seq<nat>, hash: K -> nat)
    requires Scanned(run, vs, hash)
    ensures AllOk(CallsOf(run))
  {
    forall i | 0 <= i < |run|
      ensures CallsOf(run)[i].Ok()
    {
      assert Step(run[i], vs[i], vs[i + 1], hash);
    }
  }

  lemma ReachedIsOut<K(!new), V(!new)>(s: Visit<K, V>, v: nat, next: nat, hash: K -> nat, key: K)
    requires Step(s, v, next, hash) && key in s.m && Reaches(s.call, v, hash(key))
    ensures Entry(key, s.m[key]) in s.out
  {
    hide Reaches, Next, EmitsExactly;
  }

  // ------------------------------------------------------- scans with changes

  /** What may happen to a dictionary between two calls. */
  datatype Change<K, V> = Put(key: K, val: V) | Delete(key: K) | Look(key: K) | Rehash(n: nat) | Fit

  method Perform<K(!new), V>(d: Dict<K, V>, c: Change<K, V>, canResize: bool)
    requires d.Valid() && d.used0 + d.used1 <= LONG_MAX / 4
    modifies d
    ensures d.Valid() && d.used0 + d.used1 <= old(d.used0) + old(d.used1) + 1
    ensures d.m == match c
                   case Put(key, val) => old(d.m)[key := val]
                   case Delete(key) => old(d.m) - {key}
                   case _ => old(d.m)
  {
    hide Sound, Union, Count, Find, PowerOfTwo, Tight;
    match c
    case Put(key, val) => var _ := d.Replace(key, val, canResize);
    case Delete(key) => var _ := d.Remove(key);
    case Look(key) => var _ := d.Lookup(key);
    case Rehash(n) => var _ := d.Rehash(n);
    case Fit => var _ := d.Resize(canResize);
  }

  method PerformAll<K(!new), V>(d: Dict<K, V>, cs: seq<Change<K, V>>, canResize: bool)
    requires d.Valid() && d.used0 + d.used1 + |cs| <= LONG_MAX / 4
    modifies d
    ensures d.Valid() && d.used0 + d.used1 <= old(d.used0) + old(d.used1) + |cs|
  {
    hide Sound, Union, Count, Find, PowerOfTwo, Tight;
    var i := 0;
    while i < |cs|
      invariant i <= |cs| && d.Valid() && d.used0 + d.used1 <= old(d.used0) + old(d.used1) + i
    {
      Perform(d, cs[i], canResize);
      i := i + 1;
    }
  }

  /** The smaller size never halves twice before a rehashing call. */
  ghost predicate Gentle<K, V>(run: seq<Visit<K, V>>) {
    forall i :: 1 <= i < |run| && run[i].call.rehashing ==> run[i - 1].call.k0 <= run[i].call.k0 + 1
  }

  ghost predicate Throughout<K(!new), V(!new)>(run: seq<Visit<K, V>>, key: K) {
    forall i :: 0 <= i < |run| ==> key in run[i].m
  }

  lemma IsStep<K(!new), V(!new)>(c: Call, t0: Table<K, V>, t1: Table<K, V>, m: map<K, V>, out: seq<Entry<K, V>>,
                                 v: nat, next: nat, hash: K -> nat)
    requires c.Ok()
    requires m != map[] ==> next == Next(v, c.k0) && Served(c, v, hash, m, out)
    requires m != map[] ==> EmitsExactly(c, v, hash, SmallOf(t0, t1), LargeOf(t0, t1), out)
    ensures Step(Visit(c, t0, t1, m, out), v, next, hash)
  {
    hide Next, Served, EmitsExactly;
  }

  lemma CursorGrows(v: nat, next: nat, k: nat)
    requires k <= W && next == Next(v, k) && next != 0
    ensures Pos(v) < Pos(next) < Pow2(W)
  {
    CursorAdvances(v, k);
    if Pos(next) == 0 {
      RevRev(next, W);
      RevZero(W);
    }
    hide Rev, Next, Pow2;
  }

  /** A scan from 0 to 0 of a dictionary that changes after each call as script
      says: every key present at all calls is passed to the callback. */
  method ScanAll<K(!new), V(!new)>(d: Dict<K, V>, script: seq<seq<Change<K, V>>>, canResize: bool)
    returns (outs: seq<seq<Entry<K, V>>>, ghost run: seq<Visit<K, V>>, ghost vs: seq<nat>)
    requires d.Valid() && d.used0 + d.used1 + TotalLength(script) <= LONG_MAX / 4
    modifies d
    ensures d.Valid() && Scanned(run, vs, d.hash) && |outs| == |run| > 0 && vs[0] == vs[|run|] == 0
    ensures run[0].m == old(d.m) && forall i :: 0 <= i < |run| ==> outs[i] == run[i].out
    ensures forall key :: Gentle(run) && Throughout(run, key) ==> exists i :: 0 <= i < |run| && Entry(key, run[i].m[key]) in outs[i]
  {
    hide Sound, Union, Count, Find, PowerOfTwo, Tight, Pow2, Next, Served, EmitsExactly, Genuine, Step;
    SmallWord(0);
    outs, run, vs := [], [], [0];
    var v: nat := 0;
    var todo := script;
    while true
      invariant d.Valid() && v < Pow2(W) && d.used0 + d.used1 + TotalLength(todo) <= LONG_MAX / 4
      invariant |outs| == |run| && |vs| == |run| + 1 && vs[0] == 0 && vs[|run|] == v
      invariant if run == [] then d.m == old(d.m) else run[0].m == old(d.m)
      invariant forall i :: 0 <= i < |run| ==> outs[i] == run[i].out && Step(run[i], vs[i], vs[i + 1], d.hash)
      invariant v == 0 ==> run == []
      decreases Pow2(W) - Pos(v)
    {
      ghost var v0 := v;
      ghost var call;
      var out;
      v, out, call := Scan(d, v);
      assert Step(Visit(call, d.t0, d.t1, d.m, out), v0, v, d.hash) by { IsStep(call, d.t0, d.t1, d.m, out, v0, v, d.hash); }
      run, vs, outs := run + [Visit(call, d.t0, d.t1, d.m, out)], vs + [v], outs + [out];
      if v == 0 { break; }
      CursorGrows(v0, v, call.k0);
      if todo != [] {
        PerformAll(d, todo[0], canResize);
        todo := todo[1..];
      }
    }
    forall key | Gentle(run) && Throughout(run, key)
      ensures exists i :: 0 <= i < |run| && Entry(key, run[i].m[key]) in outs[i]
    {
      PresentIsEmitted(run, vs, d.hash, key);
    }
  }

  // ------------------------------------------------------------ a key is lost

  /** Rehashing ends with the size of the second table. */
  method Finish<K(!new), V>(d: Dict<K, V>, ghost n: nat)
    requires d.Valid() && n == if d.Rehashing() then |d.t1| else |d.t0|
    modifies d`t0, d`used0, d`t1, d`used1, d`rehashidx
    ensures d.Valid() && !d.Rehashing() && |d.t0| == n && d.used0 == old(d.used0) + old(d.used1) && d.t1 == [] && d.used1 == 0
  {
    hide Sound, Union, Count, Find, PowerOfTwo;
    while d.Rehashing()
      invariant d.Valid() && d.used0 + d.used1 == old(d.used0) + old(d.used1)
      invariant n == if d.Rehashing() then |d.t1| else |d.t0|
      decreases d.Rehashing(), |d.t0| - d.rehashidx
    {
      var _ := d.Rehash(1);
    }
    NoSecond(d);
  }

  lemma NoSecond<K(!new), V>(d: Dict<K, V>)
    requires d.Valid() && !d.Rehashing()
    ensures d.t1 == [] && d.used1 == 0
  {}

  /** A dictionary of 16 buckets with the key 4 of hash 4. */
  method SixteenBuckets() returns (d: Dict<nat, bool>)
    ensures fresh(d) && d.Valid() && !d.Rehashing() && d.m == map[4 := true] && |d.t0| == 16 && d.used0 == 1 && d.hash(4) == 4
  {
    hide Sound, Union, Count, Find, Tight, PowerOfTwo;
    d := new Dict(h => h);
    var ok := d.Add(4, true, true);
    Finish(d, if d.Rehashing() then |d.t1| else |d.t0|);
    ok := d.Expand(16);
    SixteenIsTight();
    ghost var n := if d.Rehashing() then |d.t1| else |d.t0|;
    TightUnique(n, 16, 16);
    Finish(d, n);
  }

  lemma SixteenIsTight()
    ensures Tight(16, 16) && Tight(4, 4) && !Tight(16, 4)
  {
    Powers();
    InitialIsTight();
  }

  /** dictResize to 4 buckets, of which nothing is moved yet. */
  method Shrink(d: Dict<nat, bool>)
    requires d.Valid() && !d.Rehashing() && |d.t0| == 16 && d.used0 == 1
    modifies d`t0, d`t1, d`rehashidx
    ensures d.Valid() && d.Rehashing() && d.t0 == old(d.t0) && |d.t1| == 4
    ensures forall key :: Find(d.t1, d.hash, key) == None
  {
    NoSecond(d);
    SixteenIsTight();
    hide Sound, Union, Count, Find, Tight, PowerOfTwo;
    var ok := d.Resize(true);
    TightUnique(|d.t1|, 4, 4);
    NothingThere(d);
  }

  lemma NothingThere<K(!new), V>(d: Dict<K, V>)
    requires d.Valid() && d.used1 == 0
    ensures forall key :: Find(d.t1, d.hash, key) == None
  {
    CountZero(d.t1);
    EmptyFacts(d.t1, d.hash);
  }

  /** A scan during which the table shrinks from 16 to 4 buckets: it starts and
      ends at 0, the key is there all the time, and no call emits it. */
  method ShrinkLosesAKey() returns (d: Dict<nat, bool>, cursors: seq<nat>, outs: seq<seq<Entry<nat, bool>>>)
    ensures d.Valid() && d.m == map[4 := true] && d.hash(4) == 4
    ensures cursors == [0, 8, 2, 1, 3, 0] && |outs| == 5
    ensures forall i :: 0 <= i < 5 ==> Entry(4, true) !in outs[i]
  {
    hide Sound, Union, Count, Find, Tight, PowerOfTwo;
    d := SixteenBuckets();
    var v1, out0 := ScanWide(d);
    Shrink(d);
    var v2, out1 := ScanNarrow(d, 1, v1);
    var v3, out2 := ScanNarrow(d, 2, v2);
    var v4, out3 := ScanNarrow(d, 3, v3);
    var v5, out4 := ScanNarrow(d, 4, v4);
    cursors, outs := [0, v1, v2, v3, v4, v5], [out0, out1, out2, out3, out4];
  }

  method ScanWide(d: Dict<nat, bool>) returns (next: nat, out: seq<Entry<nat, bool>>)
    requires d.Valid() && !d.Rehashing() && |d.t0| == 16 && d.m == map[4 := true] && d.hash(4) == 4
    ensures next == 8 && Entry(4, true) !in out
  {
    NoSecond(d);
    SmallWord(0);
    assert 4 in d.m;
    hide Sound, Union, Count, Next, Find, Pow2, EmitsExactly, Served, Genuine, PowerOfTwo;
    ghost var call;
    next, out, call := Scan(d, 0);
    WideMisses(call, d.hash, d.t0, out);
  }

  lemma SmallWord(v: nat)
    requires v < 16
    ensures v < Pow2(W)
  {
    Powers();
    PowMono(4, W);
  }

  lemma WideMisses(c: Call, hash: nat -> nat, t: Table<nat, bool>, out: seq<Entry<nat, bool>>)
    requires c.Ok() && !c.rehashing && Pow2(c.k0) == 16 && hash(4) == 4 && EmitsExactly(c, 0, hash, t, [], out)
    ensures Next(0, c.k0) == 8 && Entry(4, true) !in out
  {
    hide Lo, Next, Find, Pow2, Hi, Mul;
    Powers();
    SmallWords();
    Pow2Injective(c.k0, 4);
  }

  method ScanNarrow(d: Dict<nat, bool>, i: nat, v: nat) returns (next: nat, out: seq<Entry<nat, bool>>)
    requires d.Valid() && d.Rehashing() && |d.t0| == 16 && |d.t1| == 4 && d.m == map[4 := true] && d.hash(4) == 4
    requires Find(d.t1, d.hash, 4) == None
    requires 1 <= i < 5 && v == [0, 8, 2, 1, 3][i]
    ensures next == [8, 2, 1, 3, 0][i] && Entry(4, true) !in out
  {
    SmallWord(v);
    assert 4 in d.m;
    hide Sound, Union, Count, Next, Find, Pow2, EmitsExactly, Served, Genuine, PowerOfTwo;
    ghost var call;
    next, out, call := Scan(d, v);
    FourAndSixteen(call);
    NarrowMisses(call, i, v, d.hash, d.t1, d.t0, out);
  }

  lemma NarrowMisses(c: Call, i: nat, v: nat, hash: nat -> nat, small: Table<nat, bool>, large: Table<nat, bool>, out: seq<Entry<nat, bool>>)
    requires c == Call(2, 4, true) && hash(4) == 4 && EmitsExactly(c, v, hash, small, large, out)
    requires Find(small, hash, 4) == None && 1 <= i < 5 && v == [0, 8, 2, 1, 3][i]
    ensures Next(v, c.k0) == [8, 2, 1, 3, 0][i] && Entry(4, true) !in out
  {
    hide Lo, Next, Mid, Find, Pow2, Cursor, Hi, Mul;
    SmallWords();
    ShrinkMissesAHash();
    ShrinkingCursors();
    assert ShrinkingRun()[i] == c && Cursor(ShrinkingRun(), i) == v;
    assert !Reaches(c, v, 4);
  }

  lemma {:induction false} Pow2Injective(a: nat, b: nat)
    requires Pow2(a) == Pow2(b)
    ensures a == b
  {
    if a > 0 && b > 0 { Pow2Injective(a - 1, b - 1); }
  }

  lemma FourAndSixteen(c: Call)
    requires c.Ok() && c.rehashing && {Pow2(c.k0), Pow2(c.k1)} == {16, 4}
    ensures c == Call(2, 4, true)
  {
    Powers();
    PowMono(c.k0, c.k1);
    hide Pow2;
    assert Pow2(c.k0) in {16, 4} && Pow2(c.k1) in {16, 4} && 16 in {Pow2(c.k0), Pow2(c.k1)} && 4 in {Pow2(c.k0), Pow2(c.k1)};
    Pow2Injective(c.k0, 2);
    Pow2Injective(c.k1, 4);
  }
}
