// A whole safe iteration (dict.c) over a dictionary that changes on the way.
module DictIterate {
  import opened Options
  import opened Sequences
  import opened DictTable
  import opened Dict
  import opened DictIterator

  /** What may happen between two calls of dictNext. */
  datatype Deed<K, V> = Look(key: K) | Put(key: K, val: V) | DeleteCurrent

  /** The iteration so far: its moments, its acts, and where it stands. */
  ghost predicate History<K(!new), V>(ms: seq<Moment<K, V>>, acts: seq<Act<K, V>>, last: Moment<K, V>, hash: K -> nat) {
    Iteration(ms, acts, hash) && ms[|acts|] == last
  }

  lemma Extended<K(!new), V>(ms: seq<Moment<K, V>>, acts: seq<Act<K, V>>, a: Moment<K, V>, act: Act<K, V>, b: Moment<K, V>, hash: K -> nat)
    requires History(ms, acts, a, hash) && Acts(a, act, b, hash)
    ensures History(ms + [b], acts + [act], b, hash)
    ensures Returned(acts + [act]) == Returned(acts) + Returned([act])
  {
    hide Acts;
    ReturnedAppend(acts, [act]);
  }

  lemma {:induction false} ReturnedAppend<K, V>(a: seq<Act<K, V>>, b: seq<Act<K, V>>)
    ensures Returned(a + b) == Returned(a) + Returned(b)
  {
    if a == [] {
      assert a + b == b;
    } else {
      assert (a + b)[1..] == a[1..] + b;
      ReturnedAppend(a[1..], b);
    }
  }

  /** Entries of the old dictionary other than gone are neither added nor deleted. */
  ghost predicate Spared<K(!new), V>(acts: seq<Act<K, V>>, from: nat, m: map<K, V>, gone: seq<K>) {
    forall i, k :: from <= i < |acts| && k in m && k !in gone ==> Spares(acts[i], k)
  }

  ghost predicate Stays<K(!new), V>(m: map<K, V>, now: map<K, V>, gone: seq<K>) {
    forall k :: k in m && k !in gone ==> k in now
  }

  lemma Compose<K(!new), V>(acts0: seq<Act<K, V>>, acts: seq<Act<K, V>>, from: nat, m0: map<K, V>, m1: map<K, V>, m2: map<K, V>,
                            gone0: seq<K>, gone1: seq<K>)
    requires from <= |acts0| && acts0 <= acts && Spared(acts0, from, m0, gone0) && Stays(m0, m1, gone0)
    requires Spared(acts, |acts0|, m1, gone1) && Stays(m1, m2, gone1)
    ensures Spared(acts, from, m0, gone0 + gone1) && Stays(m0, m2, gone0 + gone1)
  {
    hide Spares;
    forall i, k | from <= i < |acts| && k in m0 && k !in gone0 + gone1 ensures Spares(acts[i], k) {
      if i < |acts0| { assert acts[i] == acts0[i]; }
    }
  }

  /** One deed while the iterator stands on an entry. */
  method Perform<K(!new), V>(it: Iterator<K, V>, deed: Deed<K, V>, canResize: bool, ghost ms0: seq<Moment<K, V>>, ghost acts0: seq<Act<K, V>>)
    returns (gone: seq<K>, ghost ms: seq<Moment<K, V>>, ghost acts: seq<Act<K, V>>)
    requires it.Valid() && it.d.iterators > 0 && it.d.used0 + it.d.used1 <= LONG_MAX / 4
    requires History(ms0, acts0, Moment(it.Where(), it.d.t0, it.d.t1), it.d.hash)
    modifies it.d
    ensures it.Valid() && it.d.iterators == old(it.d.iterators) && it.d.used0 + it.d.used1 <= old(it.d.used0) + old(it.d.used1) + 1
    ensures History(ms, acts, Moment(it.Where(), it.d.t0, it.d.t1), it.d.hash) && ms0 <= ms && acts0 <= acts
    ensures Returned(acts) == Returned(acts0)
    ensures Spared(acts, |acts0|, old(it.d.m), gone) && Stays(old(it.d.m), it.d.m, gone)
    ensures forall k :: k in gone ==> it.entry == Some(k) && deed == DeleteCurrent
  {
    hide Sound, Union, Count, Find, PowerOfTwo, PlaceOk, Ahead, Installed, Grown, Dropped, Iteration;
    gone, ms, acts := [], ms0, acts0;
    match deed
    case Look(key) =>
      var _ := it.d.Lookup(key);
    case Put(key, val) =>
      ms, acts := PutOne(it, key, val, canResize, ms0, acts0);
    case DeleteCurrent =>
      if it.entry != None { gone, ms, acts := DropOne(it, it.entry.value, ms0, acts0); }
  }

  method PutOne<K(!new), V>(it: Iterator<K, V>, key: K, val: V, canResize: bool, ghost ms0: seq<Moment<K, V>>, ghost acts0: seq<Act<K, V>>)
    returns (ghost ms: seq<Moment<K, V>>, ghost acts: seq<Act<K, V>>)
    requires it.Valid() && it.d.iterators > 0 && it.d.used0 + it.d.used1 <= LONG_MAX / 4
    requires History(ms0, acts0, Moment(it.Where(), it.d.t0, it.d.t1), it.d.hash)
    modifies it.d
    ensures it.Valid() && it.d.iterators == old(it.d.iterators) && it.d.used0 + it.d.used1 <= old(it.d.used0) + old(it.d.used1) + 1
    ensures History(ms, acts, Moment(it.Where(), it.d.t0, it.d.t1), it.d.hash) && ms0 <= ms && acts0 <= acts
    ensures Returned(acts) == Returned(acts0)
    ensures Spared(acts, |acts0|, old(it.d.m), []) && Stays(old(it.d.m), it.d.m, [])
  {
    hide Sound, Union, Count, Find, PowerOfTwo, PlaceOk, Ahead, Installed, Grown, Dropped, History, Returned;
    ghost var a := Moment(it.Where(), it.d.t0, it.d.t1);
    if key !in it.d.m { NewKeysAreFresh(key, a, it.d.hash, it.d.m); }
    var ok := it.d.Add(key, val, canResize);
    ghost var z := Moment(it.Where(), it.d.t0, it.d.t1);
    if ok {
      ghost var b0, b1 :| Installed(a.t0, a.t1, b0, b1) && Grown(b0, b1, z.t0, z.t1, it.d.hash, Entry(key, val));
      ghost var b := Moment(a.place, b0, b1);
      InstallAct(ms0, acts0, a, b, it.d.hash);
      AddAct(ms0 + [b], acts0 + [Install], b, z, it.d.hash, Entry(key, val));
      ms, acts := ms0 + [b] + [z], acts0 + [Install] + [Act.Add(Entry(key, val))];
    } else {
      InstallAct(ms0, acts0, a, z, it.d.hash);
      ms, acts := ms0 + [z], acts0 + [Install];
    }
  }

  lemma InstallAct<K(!new), V>(ms: seq<Moment<K, V>>, acts: seq<Act<K, V>>, a: Moment<K, V>, b: Moment<K, V>, hash: K -> nat)
    requires History(ms, acts, a, hash) && PlaceOk(a.place, a.t0, a.t1) && b.place == a.place && Installed(a.t0, a.t1, b.t0, b.t1)
    ensures History(ms + [b], acts + [Install], b, hash) && PlaceOk(b.place, b.t0, b.t1)
    ensures Returned(acts + [Install]) == Returned(acts)
  {
    InstalledAhead(a.place, a.t0, a.t1, b.t0, b.t1);
    hide PlaceOk, Installed;
    Extended(ms, acts, a, Install, b, hash);
    hide History;
    assert [Act<K, V>.Install][1..] == [];
  }

  lemma AddAct<K(!new), V>(ms: seq<Moment<K, V>>, acts: seq<Act<K, V>>, a: Moment<K, V>, b: Moment<K, V>, hash: K -> nat, e: Entry<K, V>)
    requires History(ms, acts, a, hash) && PlaceOk(a.place, a.t0, a.t1) && b.place == a.place && Fresh(e.key, a)
    requires Grown(a.t0, a.t1, b.t0, b.t1, hash, e)
    ensures History(ms + [b], acts + [Act.Add(e)], b, hash) && PlaceOk(b.place, b.t0, b.t1)
    ensures Returned(acts + [Act.Add(e)]) == Returned(acts)
  {
    AddKeepsPlace(a.place, a.t0, a.t1, b.t0, b.t1, hash, e);
    hide PlaceOk, Grown;
    Extended(ms, acts, a, Act.Add(e), b, hash);
    hide History;
    assert [Act<K, V>.Add(e)][1..] == [];
  }

  method DropOne<K(!new), V>(it: Iterator<K, V>, key: K, ghost ms0: seq<Moment<K, V>>, ghost acts0: seq<Act<K, V>>)
    returns (gone: seq<K>, ghost ms: seq<Moment<K, V>>, ghost acts: seq<Act<K, V>>)
    requires it.Valid() && it.d.iterators > 0 && it.entry == Some(key)
    requires History(ms0, acts0, Moment(it.Where(), it.d.t0, it.d.t1), it.d.hash)
    modifies it.d
    ensures it.Valid() && it.d.iterators == old(it.d.iterators) && it.d.used0 + it.d.used1 <= old(it.d.used0) + old(it.d.used1)
    ensures History(ms, acts, Moment(it.Where(), it.d.t0, it.d.t1), it.d.hash) && ms0 <= ms && acts0 <= acts
    ensures Returned(acts) == Returned(acts0)
    ensures Spared(acts, |acts0|, old(it.d.m), gone) && Stays(old(it.d.m), it.d.m, gone)
    ensures forall k :: k in gone ==> k == key
  {
    hide Sound, Union, Count, Find, PowerOfTwo, PlaceOk, Ahead, Installed, Grown, Dropped, History, Returned;
    ghost var a := Moment(it.Where(), it.d.t0, it.d.t1);
    var ok := it.d.Remove(key);
    gone, ms, acts := [], ms0, acts0;
    if ok {
      ghost var z := Moment(it.Where(), it.d.t0, it.d.t1);
      DropAct(ms0, acts0, a, z, it.d.hash, key);
      gone, ms, acts := [key], ms0 + [z], acts0 + [DeleteLast(key)];
    }
  }

  lemma DropAct<K(!new), V>(ms: seq<Moment<K, V>>, acts: seq<Act<K, V>>, a: Moment<K, V>, b: Moment<K, V>, hash: K -> nat, key: K)
    requires History(ms, acts, a, hash) && PlaceOk(a.place, a.t0, a.t1) && b.place == a.place && a.place.entry == Some(key)
    requires Dropped(a.t0, a.t1, b.t0, b.t1, key)
    ensures History(ms + [b], acts + [DeleteLast(key)], b, hash) && PlaceOk(b.place, b.t0, b.t1)
    ensures Returned(acts + [DeleteLast(key)]) == Returned(acts)
  {
    DropKeepsPlace(a.place, a.t0, a.t1, b.t0, b.t1, key);
    hide PlaceOk, Dropped;
    Extended(ms, acts, a, DeleteLast(key), b, hash);
    hide History;
    assert [Act<K, V>.DeleteLast(key)][1..] == [];
  }

  lemma AddKeepsPlace<K(!new), V>(p: Place<K>, t0: Table<K, V>, t1: Table<K, V>, u0: Table<K, V>, u1: Table<K, V>,
                                  hash: K -> nat, e: Entry<K, V>)
    requires PlaceOk(p, t0, t1) && Grown(t0, t1, u0, u1, hash, e) && (p.entry != None ==> p.next != Some(e.key))
    ensures PlaceOk(p, u0, u1)
  {
    if p.entry != None && p.next != None { GrownAhead(p, t0, t1, u0, u1, hash, e, p.next.value); }
  }

  lemma DropKeepsPlace<K(!new), V>(p: Place<K>, t0: Table<K, V>, t1: Table<K, V>, u0: Table<K, V>, u1: Table<K, V>, key: K)
    requires PlaceOk(p, t0, t1) && Dropped(t0, t1, u0, u1, key) && p.entry == Some(key)
    ensures PlaceOk(p, u0, u1)
  {
    if p.next != None { DroppedAhead(p, t0, t1, u0, u1, key, p.next.value); }
  }

  method PerformAll<K(!new), V>(it: Iterator<K, V>, deeds: seq<Deed<K, V>>, canResize: bool, ghost ms0: seq<Moment<K, V>>,
                                ghost acts0: seq<Act<K, V>>)
    returns (gone: seq<K>, ghost ms: seq<Moment<K, V>>, ghost acts: seq<Act<K, V>>)
    requires it.Valid() && it.d.iterators > 0 && it.d.used0 + it.d.used1 + |deeds| <= LONG_MAX / 4
    requires History(ms0, acts0, Moment(it.Where(), it.d.t0, it.d.t1), it.d.hash)
    modifies it.d
    ensures it.Valid() && it.d.iterators == old(it.d.iterators) && it.d.used0 + it.d.used1 <= old(it.d.used0) + old(it.d.used1) + |deeds|
    ensures History(ms, acts, Moment(it.Where(), it.d.t0, it.d.t1), it.d.hash) && ms0 <= ms && acts0 <= acts
    ensures Returned(acts) == Returned(acts0)
    ensures Spared(acts, |acts0|, old(it.d.m), gone) && Stays(old(it.d.m), it.d.m, gone)
    ensures forall k :: k in gone ==> it.entry == Some(k) && DeleteCurrent in deeds
  {
    gone, ms, acts := [], ms0, acts0;
    ghost var m0 := it.d.m;
    var i := 0;
    hide Iterator.Valid, History, Returned, Spares;
    while i < |deeds|
      invariant i <= |deeds| && it.Valid() && it.d.iterators == old(it.d.iterators) && it.d.used0 + it.d.used1 <= old(it.d.used0) + old(it.d.used1) + i
      invariant History(ms, acts, Moment(it.Where(), it.d.t0, it.d.t1), it.d.hash) && ms0 <= ms && acts0 <= acts
      invariant Returned(acts) == Returned(acts0)
      invariant Spared(acts, |acts0|, m0, gone) && Stays(m0, it.d.m, gone)
      invariant forall k :: k in gone ==> it.entry == Some(k) && DeleteCurrent in deeds
    {
      ghost var m1, acts1, gone0 := it.d.m, acts, gone;
      var g;
      g, ms, acts := Perform(it, deeds[i], canResize, ms, acts);
      Compose(acts1, acts, |acts0|, m0, m1, it.d.m, gone0, g);
      gone := gone + g;
      i := i + 1;
    }
  }

  /** dictNext as an act. */
  method CallNext<K(!new), V>(it: Iterator<K, V>, ghost ms0: seq<Moment<K, V>>, ghost acts0: seq<Act<K, V>>)
    returns (r: Option<K>, ghost ms: seq<Moment<K, V>>, ghost acts: seq<Act<K, V>>)
    requires it.Valid() && History(ms0, acts0, Moment(it.Where(), it.d.t0, it.d.t1), it.d.hash)
    modifies it, it.d`iterators
    ensures it.Valid() && (r != None ==> it.entry == r && it.d.iterators > 0 && |it.Coming()| < |old(it.Coming())|)
    ensures it.index != -1 && it.d.iterators == old(it.d.iterators) + if old(it.index) == -1 then 1 else 0
    ensures History(ms, acts, Moment(it.Where(), it.d.t0, it.d.t1), it.d.hash) && ms0 <= ms && acts == acts0 + [Call(r)]
    ensures Returned(acts) == Returned(acts0) + if r == None then [] else [r.value]
  {
    hide Sound, Union, Count, Find, PowerOfTwo, PlaceOk, Ahead, History, Returned;
    ghost var a := Moment(it.Where(), it.d.t0, it.d.t1);
    r := it.Next();
    ghost var z := Moment(it.Where(), it.d.t0, it.d.t1);
    Extended(ms0, acts0, a, Call(r), z, it.d.hash);
    OneCall<K, V>(r);
    ms, acts := ms0 + [z], acts0 + [Call(r)];
  }

  lemma OneCall<K, V>(r: Option<K>)
    ensures Returned([Act<K, V>.Call(r)]) == if r == None then [] else [r.value]
  {
    assert [Act<K, V>.Call(r)][1..] == [];
  }

  lemma CallSpared<K(!new), V>(acts0: seq<Act<K, V>>, acts: seq<Act<K, V>>, r: Option<K>, m: map<K, V>, gone: seq<K>)
    requires acts == acts0 + [Call(r)] && Spared(acts0, 0, m, gone)
    ensures Spared(acts, 0, m, gone)
  {}

  lemma DictParts<K(!new), V>(d: Dict<K, V>)
    requires d.Valid()
    ensures Sound(d.t0, d.hash) && Sound(d.t1, d.hash) && Union(d.t0, d.t1, d.hash, d.m)
  {}

  /** Only the key just returned was deleted, and only on demand. */
  ghost predicate OnDemand<K, V>(deleted0: seq<K>, deleted: seq<K>, r: Option<K>, deeds: seq<Deed<K, V>>) {
    forall k :: k in deleted ==> k in deleted0 || (r == Some(k) && DeleteCurrent in deeds)
  }

  /** The iteration so far and what it promises for the keys of m0. */
  ghost predicate So<K(!new), V>(ms: seq<Moment<K, V>>, acts: seq<Act<K, V>>, it: Iterator<K, V>, a0: Moment<K, V>, m0: map<K, V>,
                                 keys: seq<K>, deleted: seq<K>)
    reads it, it.d
  {
    && it.Valid() && History(ms, acts, Moment(it.Where(), it.d.t0, it.d.t1), it.d.hash) && ms[0] == a0
    && Returned(acts) == keys && Spared(acts, 0, m0, deleted) && Stays(m0, it.d.m, deleted)
  }

  /** A call and the deeds after it. */
  method OneTurn<K(!new), V>(it: Iterator<K, V>, deeds: seq<Deed<K, V>>, canResize: bool, ghost ms0: seq<Moment<K, V>>,
                             ghost acts0: seq<Act<K, V>>, ghost a0: Moment<K, V>, ghost m0: map<K, V>, keys0: seq<K>, deleted0: seq<K>)
    returns (r: Option<K>, keys: seq<K>, deleted: seq<K>, ghost ms: seq<Moment<K, V>>, ghost acts: seq<Act<K, V>>)
    requires So(ms0, acts0, it, a0, m0, keys0, deleted0) && it.d.used0 + it.d.used1 + |deeds| <= LONG_MAX / 4
    modifies it, it.d
    ensures So(ms, acts, it, a0, m0, keys, deleted)
    ensures it.d.used0 + it.d.used1 <= old(it.d.used0) + old(it.d.used1) + |deeds|
    ensures r == None ==> acts != [] && acts[|acts| - 1] == Call(None) && deleted == deleted0
    ensures r != None && deeds == [] ==> |it.Coming()| < |old(it.Coming())|
    ensures keys == if r == None then keys0 else keys0 + [r.value]
    ensures it.index != -1 && it.d.iterators == old(it.d.iterators) + if old(it.index) == -1 then 1 else 0
    ensures OnDemand(deleted0, deleted, r, deeds)
  {
    hide Iterator.Valid, History, Returned, Spares, Acts, Iteration;
    keys, deleted := keys0, deleted0;
    HistoryLength(ms0, acts0, Moment(it.Where(), it.d.t0, it.d.t1), it.d.hash);
    r, ms, acts := CallNext(it, ms0, acts0);
    CallSpared(acts0, acts, r, m0, deleted);
    assert keys + [] == keys;
    if r == None { return; }
    keys := keys + [r.value];
    if deeds != [] {
      ghost var m1, acts1 := it.d.m, acts;
      var g;
      g, ms, acts := PerformAll(it, deeds, canResize, ms, acts);
      Compose(acts1, acts, 0, m0, m1, it.d.m, deleted0, g);
      deleted := deleted + g;
    }
  }

  lemma HistoryLength<K(!new), V>(ms: seq<Moment<K, V>>, acts: seq<Act<K, V>>, last: Moment<K, V>, hash: K -> nat)
    requires History(ms, acts, last, hash)
    ensures |ms| == |acts| + 1
  {}

  lemma Start<K(!new), V>(it: Iterator<K, V>, a0: Moment<K, V>)
    requires it.Valid() && a0 == Moment(it.Where(), it.d.t0, it.d.t1)
    ensures So([a0], [], it, a0, it.d.m, [], [])
  {
    hide Iterator.Valid, Acts;
  }

  lemma Finished<K(!new), V>(ms: seq<Moment<K, V>>, acts: seq<Act<K, V>>, it: Iterator<K, V>, a0: Moment<K, V>, m0: map<K, V>,
                             keys: seq<K>, deleted: seq<K>, k: K)
    requires So(ms, acts, it, a0, m0, keys, deleted) && acts != [] && acts[|acts| - 1] == Call(None)
    requires a0.place == Place(0, -1, None, None) && k in m0 && k !in deleted
    requires Sound(a0.t0, it.d.hash) && Sound(a0.t1, it.d.hash) && Union(a0.t0, a0.t1, it.d.hash, m0)
    ensures it.d.Valid() && k in it.d.m && Occ(keys, k) == 1
  {
    hide Sound, Union, Acts, Occ, Spares;
    EachExactlyOnce(ms, acts, it.d.hash, m0, k);
  }

  /** The script from turn n on. */
  function From<T>(script: seq<seq<T>>, n: nat): seq<seq<T>> { if n <= |script| then script[n..] else [] }

  /** The key was to be deleted when it was the current one. */
  ghost predicate Asked<K, V>(script: seq<seq<Deed<K, V>>>, keys: seq<K>, k: K) {
    exists i :: 0 <= i < |keys| && keys[i] == k && i < |script| && DeleteCurrent in script[i]
  }

  ghost predicate AllAsked<K, V>(script: seq<seq<Deed<K, V>>>, keys: seq<K>, deleted: seq<K>) {
    forall k :: k in deleted ==> Asked(script, keys, k)
  }

  function Head<T>(todo: seq<seq<T>>): seq<T> { if todo == [] then [] else todo[0] }

  function Tail<T>(todo: seq<seq<T>>): seq<seq<T>> { if todo == [] then [] else todo[1..] }

  lemma StillAsked<K(!new), V>(script: seq<seq<Deed<K, V>>>, todo: seq<seq<Deed<K, V>>>, keys0: seq<K>, deleted0: seq<K>,
                               r: Option<K>, keys: seq<K>, deleted: seq<K>)
    requires AllAsked(script, keys0, deleted0) && OnDemand(deleted0, deleted, r, Head(todo)) && todo == From(script, |keys0|)
    requires keys == if r == None then keys0 else keys0 + [r.value]
    ensures AllAsked(script, keys, deleted)
    ensures r != None ==> Tail(todo) == From(script, |keys|)
  {
    forall k | k in deleted ensures Asked(script, keys, k) {
      if k in deleted0 {
        var i :| 0 <= i < |keys0| && keys0[i] == k && i < |script| && DeleteCurrent in script[i];
        assert keys[i] == k;
      } else {
        assert keys[|keys0|] == k;
      }
    }
  }

  lemma AllFinished<K(!new), V>(ms: seq<Moment<K, V>>, acts: seq<Act<K, V>>, it: Iterator<K, V>, a0: Moment<K, V>, m0: map<K, V>,
                                keys: seq<K>, deleted: seq<K>, script: seq<seq<Deed<K, V>>>)
    requires So(ms, acts, it, a0, m0, keys, deleted) && acts != [] && acts[|acts| - 1] == Call(None)
    requires a0.place == Place(0, -1, None, None)
    requires Sound(a0.t0, it.d.hash) && Sound(a0.t1, it.d.hash) && Union(a0.t0, a0.t1, it.d.hash, m0)
    requires AllAsked(script, keys, deleted)
    ensures forall k :: k in m0 && k !in deleted ==> k in it.d.m && Occ(keys, k) == 1
    ensures forall k :: k in deleted ==> Asked(script, keys, k)
  {
    hide So, Sound, Union, Occ, Asked;
    forall k | k in m0 && k !in deleted
      ensures k in it.d.m && Occ(keys, k) == 1
    {
      Finished(ms, acts, it, a0, m0, keys, deleted, k);
    }
  }

  /** The loop over dictNext, with the deeds of the script after each entry. */
  method Exhaust<K(!new), V>(it: Iterator<K, V>, script: seq<seq<Deed<K, V>>>, canResize: bool, ghost a0: Moment<K, V>, ghost m0: map<K, V>)
    returns (keys: seq<K>, deleted: seq<K>, ghost ms: seq<Moment<K, V>>, ghost acts: seq<Act<K, V>>)
    requires So([a0], [], it, a0, m0, [], []) && it.d.used0 + it.d.used1 + TotalLength(script) <= LONG_MAX / 4
    modifies it, it.d
    ensures So(ms, acts, it, a0, m0, keys, deleted) && acts != [] && acts[|acts| - 1] == Call(None)
    ensures AllAsked(script, keys, deleted)
    ensures it.index != -1 && it.d.iterators == old(it.d.iterators) + if old(it.index) == -1 then 1 else 0
  {
    ms, acts := [a0], [];
    keys, deleted := [], [];
    var todo := script;
    Unasked(script);
    SoValid(ms, acts, it, a0, m0, keys, deleted);
    hide *;
    while true
      invariant So(ms, acts, it, a0, m0, keys, deleted) && it.d.used0 + it.d.used1 + TotalLength(todo) <= LONG_MAX / 4
      invariant it.d.iterators == old(it.d.iterators) + if old(it.index) == -1 && it.index != -1 then 1 else 0
      invariant old(it.index) != -1 ==> it.index != -1
      invariant it.Valid() && todo == From(script, |keys|) && AllAsked(script, keys, deleted)
      decreases |todo|, |it.Coming()|
    {
      var r;
      ghost var keys0, deleted0 := keys, deleted;
      r, keys, deleted, ms, acts := OneTurn(it, Head(todo), canResize, ms, acts, a0, m0, keys, deleted);
      SoValid(ms, acts, it, a0, m0, keys, deleted);
      StillAsked(script, todo, keys0, deleted0, r, keys, deleted);
      HeadAndTail(todo);
      if r == None { return; }
      todo := Tail(todo);
    }
  }

  /** dictNext until it finds nothing, with deeds of the script after each entry:
      every key that is there at the start and not among the deleted ones is
      returned exactly once; those are current ones that the script deletes. */
  method Iterate<K(!new), V>(d: Dict<K, V>, script: seq<seq<Deed<K, V>>>, canResize: bool) returns (keys: seq<K>, deleted: seq<K>)
    requires d.Valid() && d.used0 + d.used1 + TotalLength(script) <= LONG_MAX / 4
    modifies d
    ensures d.Valid()
    ensures forall k :: k in old(d.m) && k !in deleted ==> k in d.m && Occ(keys, k) == 1
    ensures forall k :: k in deleted ==> Asked(script, keys, k)
    ensures d.iterators == old(d.iterators)
  {
    var it := new Iterator(d);
    ghost var a0, m0 := Moment(it.Where(), d.t0, d.t1), d.m;
    Start(it, a0);
    DictParts(d);
    hide *;
    ghost var ms, acts;
    keys, deleted, ms, acts := Exhaust(it, script, canResize, a0, m0);
    SoValid(ms, acts, it, a0, m0, keys, deleted);
    AllFinished(ms, acts, it, a0, m0, keys, deleted, script);
    it.Release();
  }

  lemma HeadAndTail<T>(todo: seq<seq<T>>)
    ensures TotalLength(todo) == |Head(todo)| + TotalLength(Tail(todo))
    ensures |Tail(todo)| < |todo| || (Head(todo) == [] && Tail(todo) == todo == [])
  {}

  lemma Unasked<K(!new), V>(script: seq<seq<Deed<K, V>>>)
    ensures AllAsked(script, [], []) && From(script, 0) == script
  {}

  lemma SoValid<K(!new), V>(ms: seq<Moment<K, V>>, acts: seq<Act<K, V>>, it: Iterator<K, V>, a0: Moment<K, V>, m0: map<K, V>,
                            keys: seq<K>, deleted: seq<K>)
    requires So(ms, acts, it, a0, m0, keys, deleted)
    ensures it.Valid()
  {}
}
