// A chained hash table as a value (dict.c, dict.h): buckets are chains of
// entries, head first.
module DictTable {
  import opened Options

  datatype Entry<K, V> = Entry(key: K, val: V)

  type Chain<K, V> = seq<Entry<K, V>>

  type Table<K, V> = seq<Chain<K, V>>

  // ---------------------------------------------------------------- chains

  function ChainFind<K(==), V>(c: Chain<K, V>, key: K): Option<V> {
    if c == [] then None
    else if c[0].key == key then Some(c[0].val)
    else ChainFind(c[1..], key)
  }

  ghost predicate Distinct<K, V>(c: Chain<K, V>) {
    forall i, j :: 0 <= i < j < |c| ==> c[i].key != c[j].key
  }

  lemma {:induction false} ChainFindAt<K, V>(c: Chain<K, V>, j: nat)
    requires Distinct(c) && j < |c|
    ensures ChainFind(c, c[j].key) == Some(c[j].val)
  {
    if j > 0 { ChainFindAt(c[1..], j - 1); }
  }

  lemma {:induction false} ChainFindNone<K, V>(c: Chain<K, V>, key: K)
    ensures ChainFind(c, key) == None <==> forall j :: 0 <= j < |c| ==> c[j].key != key
  {
    if c != [] {
      ChainFindNone(c[1..], key);
      if forall j :: 0 <= j < |c[1..]| ==> c[1..][j].key != key {
        assert forall j :: 1 <= j < |c| ==> c[j] == c[1..][j - 1];
      } else {
        var j :| 0 <= j < |c[1..]| && c[1..][j].key == key;
        assert c[j + 1].key == key;
      }
    }
  }

  /** Unlinking position j hides exactly its key. */
  lemma {:induction false} ChainUnlink<K, V>(c: Chain<K, V>, j: nat, key: K)
    requires Distinct(c) && j < |c|
    ensures ChainFind(c[..j] + c[j + 1..], key) == if key == c[j].key then None else ChainFind(c, key)
  {
    var d := c[..j] + c[j + 1..];
    if j == 0 {
      assert d == c[1..];
      if key == c[0].key { ChainFindNone(c[1..], key); }
    } else {
      ChainUnlink(c[1..], j - 1, key);
      assert d[1..] == c[1..][..j - 1] + c[1..][j..];
    }
  }

  lemma DistinctUnlink<K, V>(c: Chain<K, V>, j: nat)
    requires Distinct(c) && j < |c|
    ensures Distinct(c[..j] + c[j + 1..])
  {
    var d := c[..j] + c[j + 1..];
    assert forall i :: 0 <= i < |d| ==> d[i] == c[if i < j then i else i + 1];
  }

  lemma {:induction false} ChainSet<K, V>(c: Chain<K, V>, j: nat, v: V, key: K)
    requires Distinct(c) && j < |c|
    ensures ChainFind(c[j := Entry(c[j].key, v)], key) == if key == c[j].key then Some(v) else ChainFind(c, key)
  {
    var d := c[j := Entry(c[j].key, v)];
    if j == 0 {
      assert d[1..] == c[1..];
    } else {
      ChainSet(c[1..], j - 1, v, key);
      assert d[1..] == c[1..][j - 1 := Entry(c[j].key, v)];
    }
  }

  // ---------------------------------------------------------------- tables

  /** The lookup of one table, through the bucket of the key's hash. */
  ghost function Find<K, V>(t: Table<K, V>, hash: K -> nat, key: K): Option<V> {
    if |t| == 0 then None else ChainFind(t[hash(key) % |t|], key)
  }

  /** Every entry sits in the bucket of its hash; no chain repeats a key. */
  ghost predicate Sound<K, V>(t: Table<K, V>, hash: K -> nat) {
    forall i :: 0 <= i < |t| ==> Distinct(t[i]) && InPlace(t[i], hash, |t|, i)
  }

  ghost predicate InPlace<K, V>(c: Chain<K, V>, hash: K -> nat, size: nat, i: nat)
    requires size > 0
  {
    forall j :: 0 <= j < |c| ==> hash(c[j].key) % size == i
  }

  /** The true number of entries. */
  function Count<K, V>(t: Table<K, V>): nat {
    if t == [] then 0 else |t[0]| + Count(t[1..])
  }

  lemma {:induction false} CountUpdate<K, V>(t: Table<K, V>, i: nat, c: Chain<K, V>)
    requires i < |t|
    ensures Count(t[i := c]) == Count(t) - |t[i]| + |c|
    ensures |t[i]| <= Count(t)
  {
    var u := t[i := c];
    if i == 0 {
      assert u[1..] == t[1..];
    } else {
      assert u[1..] == t[1..][i - 1 := c];
      CountUpdate(t[1..], i - 1, c);
    }
  }

  lemma {:induction false} CountZero<K, V>(t: Table<K, V>)
    ensures Count(t) == 0 <==> forall i :: 0 <= i < |t| ==> t[i] == []
  {
    if t != [] {
      CountZero(t[1..]);
      if Count(t) == 0 {
        assert forall i :: 1 <= i < |t| ==> t[i] == t[1..][i - 1];
      }
    }
  }

  function EmptyTable<K, V>(size: nat): (t: Table<K, V>)
    ensures |t| == size && forall i :: 0 <= i < size ==> t[i] == []
  {
    seq(size, _ => [])
  }

  lemma EmptyFacts<K, V>(t: Table<K, V>, hash: K -> nat)
    requires forall i :: 0 <= i < |t| ==> t[i] == []
    ensures Sound(t, hash) && Count(t) == 0 && forall key :: Find(t, hash, key) == None
  {
    CountZero(t);
    forall key
      ensures Find(t, hash, key) == None
    {
      if |t| > 0 { assert t[hash(key) % |t|] == []; }
    }
  }

  /** A bucket where chain c takes the place of the old one. */
  lemma FindUpdated<K, V>(t: Table<K, V>, hash: K -> nat, i: nat, c: Chain<K, V>, key: K)
    requires i < |t|
    ensures Find(t[i := c], hash, key) == if hash(key) % |t| == i then ChainFind(c, key) else Find(t, hash, key)
  {}

  lemma SoundUpdated<K, V>(t: Table<K, V>, hash: K -> nat, i: nat, c: Chain<K, V>)
    requires Sound(t, hash) && i < |t| && Distinct(c) && InPlace(c, hash, |t|, i)
    ensures Sound(t[i := c], hash)
  {}

  /** A new entry at the head of its bucket. */
  lemma LinkFacts<K, V>(t: Table<K, V>, hash: K -> nat, e: Entry<K, V>)
    requires Sound(t, hash) && |t| > 0 && Find(t, hash, e.key) == None
    ensures var i := hash(e.key) % |t|;
            var u := t[i := [e] + t[i]];
            && Sound(u, hash) && Count(u) == Count(t) + 1
            && forall key :: Find(u, hash, key) == if key == e.key then Some(e.val) else Find(t, hash, key)
  {
    var i := hash(e.key) % |t|;
    var c := [e] + t[i];
    ChainFindNone(t[i], e.key);
    assert Distinct(c) && InPlace(c, hash, |t|, i);
    SoundUpdated(t, hash, i, c);
    CountUpdate(t, i, c);
    forall key
      ensures Find(t[i := c], hash, key) == if key == e.key then Some(e.val) else Find(t, hash, key)
    {
      FindUpdated(t, hash, i, c, key);
      assert c[1..] == t[i];
    }
  }

  /** The entry at position j of bucket i unlinked. */
  lemma UnlinkFacts<K, V>(t: Table<K, V>, hash: K -> nat, i: nat, j: nat)
    requires Sound(t, hash) && i < |t| && j < |t[i]|
    ensures var u := t[i := t[i][..j] + t[i][j + 1..]];
            && Sound(u, hash) && Count(u) == Count(t) - 1
            && forall key :: Find(u, hash, key) == if key == t[i][j].key then None else Find(t, hash, key)
  {
    var c := t[i][..j] + t[i][j + 1..];
    DistinctUnlink(t[i], j);
    assert InPlace(c, hash, |t|, i) by {
      assert forall k :: 0 <= k < |c| ==> c[k] == t[i][if k < j then k else k + 1];
    }
    SoundUpdated(t, hash, i, c);
    CountUpdate(t, i, c);
    forall key
      ensures Find(t[i := c], hash, key) == if key == t[i][j].key then None else Find(t, hash, key)
    {
      FindUpdated(t, hash, i, c, key);
      ChainUnlink(t[i], j, key);
    }
  }

  /** The value at position j of bucket i replaced. */
  lemma SetFacts<K, V>(t: Table<K, V>, hash: K -> nat, i: nat, j: nat, v: V)
    requires Sound(t, hash) && i < |t| && j < |t[i]|
    ensures var u := t[i := t[i][j := Entry(t[i][j].key, v)]];
            && Sound(u, hash) && Count(u) == Count(t)
            && forall key :: Find(u, hash, key) == if key == t[i][j].key then Some(v) else Find(t, hash, key)
  {
    var c := t[i][j := Entry(t[i][j].key, v)];
    SoundUpdated(t, hash, i, c);
    CountUpdate(t, i, c);
    forall key
      ensures Find(t[i := c], hash, key) == if key == t[i][j].key then Some(v) else Find(t, hash, key)
    {
      FindUpdated(t, hash, i, c, key);
      ChainSet(t[i], j, v, key);
    }
  }

  // ------------------------------------------------------------ two tables

  /** The union of the two tables is the map m, and no key is in both. */
  ghost predicate Union<K(!new), V>(t0: Table<K, V>, t1: Table<K, V>, hash: K -> nat, m: map<K, V>) {
    forall key :: Agrees(Find(t0, hash, key), Find(t1, hash, key), m, key)
  }

  ghost predicate Agrees<K, V>(a: Option<V>, b: Option<V>, m: map<K, V>, key: K) {
    && (a == None || b == None)
    && (if key in m then (if a == None then b else a) == Some(m[key]) else a == None && b == None)
  }

  /** Moving the head of a chain to the other table changes no lookup. */
  lemma MoveHead<K(!new), V>(t0: Table<K, V>, t1: Table<K, V>, hash: K -> nat, m: map<K, V>, i: nat)
    requires Union(t0, t1, hash, m) && Sound(t0, hash) && Sound(t1, hash)
    requires i < |t0| && t0[i] != [] && |t1| > 0
    ensures var de := t0[i][0];
            var u0 := t0[i := t0[i][1..]];
            var h := hash(de.key) % |t1|;
            var u1 := t1[h := [de] + t1[h]];
            && Union(u0, u1, hash, m) && Sound(u0, hash) && Sound(u1, hash)
            && Count(u0) == Count(t0) - 1 && Count(u1) == Count(t1) + 1
  {
    var de := t0[i][0];
    assert t0[i][..0] + t0[i][1..] == t0[i][1..];
    UnlinkFacts(t0, hash, i, 0);
    assert hash(de.key) % |t0| == i && Find(t0, hash, de.key) == Some(de.val);
    assert Agrees(Find(t0, hash, de.key), Find(t1, hash, de.key), m, de.key);
    LinkFacts(t1, hash, de);
    hide Find, Sound, Count, ChainFind;
    var u0 := t0[i := t0[i][1..]];
    var h := hash(de.key) % |t1|;
    var u1 := t1[h := [de] + t1[h]];
    forall key
      ensures Agrees(Find(u0, hash, key), Find(u1, hash, key), m, key)
    {
      assert Agrees(Find(t0, hash, key), Find(t1, hash, key), m, key);
    }
  }

  /** When the first table has become empty the second one is the whole map. */
  lemma SwitchTables<K(!new), V>(t0: Table<K, V>, t1: Table<K, V>, hash: K -> nat, m: map<K, V>)
    requires Union(t0, t1, hash, m) && Count(t0) == 0
    ensures Union(t1, [], hash, m)
  {
    CountZero(t0);
    EmptyFacts(t0, hash);
    forall key
      ensures Agrees(Find(t1, hash, key), Find([], hash, key), m, key)
    {
      assert Agrees(Find(t0, hash, key), Find(t1, hash, key), m, key);
    }
  }

  /** An empty second table adds nothing. */
  lemma FreshSecond<K(!new), V>(t0: Table<K, V>, t1: Table<K, V>, hash: K -> nat, m: map<K, V>)
    requires Union(t0, [], hash, m) && forall i :: 0 <= i < |t1| ==> t1[i] == []
    ensures Union(t0, t1, hash, m) && Sound(t1, hash) && Count(t1) == 0
    ensures t0 == [] ==> Union(t1, [], hash, m)
  {
    EmptyFacts(t1, hash);
    forall key
      ensures Agrees(Find(t0, hash, key), Find(t1, hash, key), m, key)
      ensures t0 == [] ==> Agrees(Find(t1, hash, key), Find([], hash, key), m, key)
    {
      assert Agrees(Find(t0, hash, key), Find([], hash, key), m, key);
    }
  }

  // ---------------------------------------------- what an operation may change

  ghost predicate Blank<K, V>(t: Table<K, V>) {
    t != [] && forall i :: 0 <= i < |t| ==> t[i] == []
  }

  /** A first or second table was put in place, or nothing happened. */
  ghost predicate Installed<K, V>(t0: Table<K, V>, t1: Table<K, V>, u0: Table<K, V>, u1: Table<K, V>) {
    || (u0 == t0 && u1 == t1)
    || (t0 == [] && t1 == [] && Blank(u0) && u1 == [])
    || (t0 != [] && t1 == [] && u0 == t0 && Blank(u1))
  }

  ghost predicate LinkedTo<K, V>(t: Table<K, V>, u: Table<K, V>, hash: K -> nat, e: Entry<K, V>) {
    t != [] && u == t[hash(e.key) % |t| := [e] + t[hash(e.key) % |t|]]
  }

  /** A new entry went to the head of its bucket in the table for new entries. */
  ghost predicate Grown<K, V>(t0: Table<K, V>, t1: Table<K, V>, u0: Table<K, V>, u1: Table<K, V>, hash: K -> nat, e: Entry<K, V>) {
    if t1 != [] then u0 == t0 && LinkedTo(t1, u1, hash, e) else u1 == t1 && LinkedTo(t0, u0, hash, e)
  }

  ghost predicate UnlinkedFrom<K, V>(t: Table<K, V>, u: Table<K, V>, key: K) {
    exists i, j :: 0 <= i < |t| && 0 <= j < |t[i]| && t[i][j].key == key && u == t[i := t[i][..j] + t[i][j + 1..]]
  }

  /** One entry was taken out of its chain. */
  ghost predicate Dropped<K, V>(t0: Table<K, V>, t1: Table<K, V>, u0: Table<K, V>, u1: Table<K, V>, key: K) {
    || (u1 == t1 && UnlinkedFrom(t0, u0, key))
    || (u0 == t0 && UnlinkedFrom(t1, u1, key))
  }
}
