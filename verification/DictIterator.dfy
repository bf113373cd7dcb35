// Safe iterators over a dictionary (dict.c).
module DictIterator {
  import opened Sequences
  import opened Options
  import opened DictTable
  import opened Dict

  // ------------------------------------------------- what lies ahead, in order

  function ChainKeys<K, V>(c: Chain<K, V>): (ks: seq<K>)
    ensures |ks| == |c| && forall j :: 0 <= j < |c| ==> ks[j] == c[j].key
  {
    seq(|c|, j requires 0 <= j < |c| => c[j].key)
  }

  /** The keys of the buckets from i on. */
  function BucketKeys<K, V>(t: Table<K, V>, i: nat): seq<K>
    decreases |t| - i
  {
    if i >= |t| then [] else ChainKeys(t[i]) + BucketKeys(t, i + 1)
  }

  /** The rest of a chain from the entry with this key on. */
  function From<K(==), V>(c: Chain<K, V>, key: K): (r: Chain<K, V>)
    ensures r != [] ==> r[0].key == key
  {
    if c == [] || c[0].key == key then c else From(c[1..], key)
  }

  /** An iterator at rest: entry was returned last, next was saved beside it. */
  datatype Place<K> = Place(table: nat, index: int, entry: Option<K>, next: Option<K>)

  function TableOf<K, V>(p: Place<K>, t0: Table<K, V>, t1: Table<K, V>): Table<K, V> {
    if p.table == 0 then t0 else t1
  }

  ghost predicate PlaceOk<K(!new), V>(p: Place<K>, t0: Table<K, V>, t1: Table<K, V>) {
    var t := TableOf(p, t0, t1);
    && p.table <= 1 && -1 <= p.index && (p.index == -1 ==> p.table == 0)
    && (p.entry != None ==> 0 <= p.index < |t| && p.next != p.entry && (p.next != None ==> From(t[p.index], p.next.value) != []))
  }

  function RestOfChain<K(==), V>(p: Place<K>, t: Table<K, V>): seq<K>
    requires p.entry != None ==> 0 <= p.index < |t|
  {
    if p.entry == None || p.next == None then [] else ChainKeys(From(t[p.index], p.next.value))
  }

  /** The keys that the coming calls return if nothing changes. */
  ghost function Ahead<K(!new), V>(p: Place<K>, t0: Table<K, V>, t1: Table<K, V>): seq<K>
    requires PlaceOk(p, t0, t1)
  {
    RestOfChain(p, TableOf(p, t0, t1)) + Later(p.table, p.index, t0, t1)
  }

  /** The keys after the bucket at index. */
  ghost function Later<K, V>(table: nat, index: int, t0: Table<K, V>, t1: Table<K, V>): seq<K>
    requires -1 <= index
  {
    if table == 0 then BucketKeys(t0, index + 1) + BucketKeys(t1, 0) else BucketKeys(t1, index + 1)
  }

  // ------------------------------------------------------------- dictNext steps

  lemma LaterBucket<K, V>(table: nat, index: int, t0: Table<K, V>, t1: Table<K, V>)
    requires -1 <= index && index + 1 < |if table == 0 then t0 else t1|
    ensures Later(table, index, t0, t1) == ChainKeys((if table == 0 then t0 else t1)[index + 1]) + Later(table, index + 1, t0, t1)
  {
    hide ChainKeys;
    var t, k := if table == 0 then t0 else t1, index + 1;
    assert BucketKeys(t, k) == ChainKeys(t[k]) + BucketKeys(t, k + 1);
    hide BucketKeys;
    if table == 0 { Assoc(ChainKeys(t[k]), BucketKeys(t, k + 1), BucketKeys(t1, 0)); }
  }

  /** Leaving a chain, or an empty bucket, for the next bucket. */
  lemma NextBucket<K(!new), V>(p: Place<K>, t0: Table<K, V>, t1: Table<K, V>)
    requires PlaceOk(p, t0, t1) && (p.entry == None || p.next == None) && p.index + 1 < |TableOf(p, t0, t1)|
    ensures var q: Place<K> := Place(p.table, p.index + 1, None, p.next);
            PlaceOk(q, t0, t1) && Ahead(p, t0, t1) == ChainKeys(TableOf(p, t0, t1)[p.index + 1]) + Ahead(q, t0, t1)
  {
    LaterBucket(p.table, p.index, t0, t1);
    hide ChainKeys, Later, From;
  }

  /** Taking the first entry of the rest of a chain. */
  lemma TakeEntry<K(!new), V>(p: Place<K>, c: Chain<K, V>, t0: Table<K, V>, t1: Table<K, V>)
    requires p.table <= 1 && 0 <= p.index < |TableOf(p, t0, t1)| && p.entry == None && c != []
    requires Distinct(TableOf(p, t0, t1)[p.index]) && Suffix(c, TableOf(p, t0, t1)[p.index])
    ensures var q := Place(p.table, p.index, Some(c[0].key), if |c| == 1 then None else Some(c[1].key));
            && PlaceOk(q, t0, t1) && PlaceOk(p, t0, t1)
            && ChainKeys(c) + Ahead(p, t0, t1) == [c[0].key] + Ahead(q, t0, t1)
  {
    hide ChainKeys, RestOfChain, Later, PlaceOk, Distinct, Suffix;
    var q := Place(p.table, p.index, Some(c[0].key), if |c| == 1 then None else Some(c[1].key));
    FirstKey(c);
    TakenRest(p, c, t0, t1);
    Assoc([c[0].key], ChainKeys(c[1..]), Later(p.table, p.index, t0, t1));
  }

  lemma TakenRest<K(!new), V>(p: Place<K>, c: Chain<K, V>, t0: Table<K, V>, t1: Table<K, V>)
    requires p.table <= 1 && 0 <= p.index < |TableOf(p, t0, t1)| && p.entry == None && c != []
    requires Distinct(TableOf(p, t0, t1)[p.index]) && Suffix(c, TableOf(p, t0, t1)[p.index])
    ensures var q := Place(p.table, p.index, Some(c[0].key), if |c| == 1 then None else Some(c[1].key));
            && PlaceOk(q, t0, t1) && PlaceOk(p, t0, t1)
            && RestOfChain(p, TableOf(p, t0, t1)) == [] && RestOfChain(q, TableOf(q, t0, t1)) == ChainKeys(c[1..])
  {
    hide ChainKeys, From, Distinct, Suffix;
    if |c| > 1 { RestFound(TableOf(p, t0, t1)[p.index], c); } else { NoKeys(c[1..]); }
  }

  lemma RestFound<K, V>(d: Chain<K, V>, c: Chain<K, V>)
    requires Distinct(d) && Suffix(c, d) && |c| > 1
    ensures From(d, c[1].key) == c[1..] && c[1].key != c[0].key
  {
    assert d[|d| - |c|].key != d[|d| - |c| + 1].key;
    SuffixFrom(d, c[1..]);
  }

  lemma FirstKey<K, V>(c: Chain<K, V>)
    requires c != []
    ensures ChainKeys(c) == [c[0].key] + ChainKeys(c[1..])
    ensures |c| == 1 ==> ChainKeys(c[1..]) == []
  {}

  ghost predicate Suffix<K, V>(c: Chain<K, V>, d: Chain<K, V>) {
    |c| <= |d| && c == d[|d| - |c|..]
  }

  /** In a chain without repeated keys a suffix is found by its first key. */
  lemma {:induction false} SuffixFrom<K, V>(d: Chain<K, V>, c: Chain<K, V>)
    requires Distinct(d) && Suffix(c, d) && c != []
    ensures From(d, c[0].key) == c
  {
    if |c| < |d| {
      assert d[0].key != d[|d| - |c|].key;
      SuffixFrom(d[1..], c);
    }
  }

  /** What From finds is a suffix. */
  lemma {:induction false} FromIsSuffix<K, V>(d: Chain<K, V>, key: K)
    ensures Suffix(From(d, key), d)
  {
    if d != [] && d[0].key != key { FromIsSuffix(d[1..], key); }
  }

  lemma NextTable<K(!new), V>(p: Place<K>, t0: Table<K, V>, t1: Table<K, V>)
    requires PlaceOk(p, t0, t1) && p.entry == None && p.table == 0 && p.index + 1 >= |t0| && t1 != []
    ensures var q: Place<K> := Place(1, 0, p.entry, p.next);
            PlaceOk(q, t0, t1) && Ahead(p, t0, t1) == ChainKeys(t1[0]) + Ahead(q, t0, t1)
  {
    assert BucketKeys(t1, 0) == ChainKeys(t1[0]) + BucketKeys(t1, 1);
    hide ChainKeys, From;
  }

  lemma NoneAhead<K(!new), V>(p: Place<K>, t0: Table<K, V>, t1: Table<K, V>)
    requires PlaceOk(p, t0, t1) && (p.entry == None || p.next == None) && p.index + 1 >= |TableOf(p, t0, t1)|
    requires p.table == 1 || t1 == []
    ensures var q: Place<K> := Place(p.table, p.index + 1, None, p.next);
            PlaceOk(q, t0, t1) && Ahead(p, t0, t1) == [] && Ahead(q, t0, t1) == []
  {}

  /** Where dictNext goes when the current chain is used up. */
  function Onward<K(!new), V>(p: Place<K>, t0: Table<K, V>, t1: Table<K, V>): Place<K> {
    if p.index + 1 >= |TableOf(p, t0, t1)| && p.table == 0 && t1 != [] then Place(p.table + 1, 0, p.entry, p.next)
    else Place(p.table, p.index + 1, p.entry, p.next)
  }

  lemma OnwardMoves<K(!new), V>(p: Place<K>, t0: Table<K, V>, t1: Table<K, V>)
    requires p.table <= 1
    ensures var q := Onward(p, t0, t1);
            && (q.table > p.table || (q.table == p.table && q.index > p.index))
            && (q.table <= 1 ==> TableOf(q, t0, t1) == if q.table == 0 then t0 else t1)
  {}

  lemma NextPlace<K(!new), V>(p: Place<K>, t0: Table<K, V>, t1: Table<K, V>)
    requires PlaceOk(p, t0, t1) && p.entry == None
    ensures var q := Onward(p, t0, t1);
            var t := TableOf(q, t0, t1);
            && p.table <= 1 && -1 <= p.index && (p.index == -1 ==> p.table == 0) && q.table <= 1 && q.index >= 0 && PlaceOk(q, t0, t1)
            && if q.index < |t| then Ahead(p, t0, t1) == ChainKeys(t[q.index]) + Ahead(q, t0, t1)
               else Ahead(p, t0, t1) == [] && Ahead(q, t0, t1) == []
  {
    hide BucketKeys, ChainKeys, From, Ahead;
    if p.index + 1 < |TableOf(p, t0, t1)| {
      NextBucket(p, t0, t1);
    } else if p.table == 0 && t1 != [] {
      NextTable(p, t0, t1);
    } else {
      NoneAhead(p, t0, t1);
    }
  }

  /** The rest of the current chain is what next points to. */
  lemma Continue<K(!new), V>(p: Place<K>, t0: Table<K, V>, t1: Table<K, V>)
    requires PlaceOk(p, t0, t1) && p.entry != None
    ensures var t := TableOf(p, t0, t1);
            var c := if p.next == None then [] else From(t[p.index], p.next.value);
            var q: Place<K> := Place(p.table, p.index, None, p.next);
            PlaceOk(q, t0, t1) && Suffix(c, t[p.index]) && Ahead(p, t0, t1) == ChainKeys(c) + Ahead(q, t0, t1)
  {
    if p.next == None {
      NoKeys<K, V>([]);
    } else {
      FromIsSuffix(TableOf(p, t0, t1)[p.index], p.next.value);
    }
    hide ChainKeys, From, Later;
  }

  method Hold<K(!new), V>(d: Dict<K, V>)
    requires d.Valid()
    modifies d`iterators
    ensures d.Valid() && d.iterators == old(d.iterators) + 1
  {
    d.iterators := d.iterators + 1;
  }

  method MoveOn<K(!new), V>(d: Dict<K, V>, table0: nat, index0: int, ghost entry: Option<K>, ghost next: Option<K>)
    returns (table: nat, index: int, done: bool, c: Chain<K, V>)
    requires d.Valid() && index0 >= -1
    modifies d`iterators
    ensures d.Valid() && d.iterators == old(d.iterators) + if index0 == -1 && table0 == 0 then 1 else 0
    ensures Place(table, index, entry, next) == Onward(Place(table0, index0, entry, next), d.t0, d.t1) && index >= 0
    ensures done <==> index >= |if table == 0 then d.t0 else d.t1|
    ensures !done ==> c == (if table == 0 then d.t0 else d.t1)[index]
  {
    SecondTable(d);
    if index0 == -1 && table0 == 0 { Hold(d); }
    table, index, done, c := table0, index0 + 1, false, [];
    if index >= |if table == 0 then d.t0 else d.t1| {
      if !(d.Rehashing() && table == 0) {
        done := true;
        return;
      }
      table, index := table + 1, 0;
    }
    c := (if table == 0 then d.t0 else d.t1)[index];
  }

  class Iterator<K(==, !new), V> {
    const d: Dict<K, V>
    var table: nat
    var index: int
    var entry: Option<K>
    var nextEntry: Option<K>

    function Where(): Place<K>
      reads this
    {
      Place(table, index, entry, nextEntry)
    }

    ghost predicate Valid()
      reads this, d
    {
      d.Valid() && PlaceOk(Where(), d.t0, d.t1) && (index != -1 ==> d.iterators > 0)
    }

    ghost function Coming(): seq<K>
      requires Valid()
      reads this, d
    {
      Ahead(Where(), d.t0, d.t1)
    }

    /** dictGetSafeIterator. */
    constructor (d: Dict<K, V>)
      requires d.Valid()
      ensures Valid() && this.d == d && Where() == Place(0, -1, None, None)
    {
      this.d := d;
      table, index, entry, nextEntry := 0, -1, None, None;
    }

    /** One turn of dictNext up to the test of iter->entry: the chain that is
        left, or the end. */
    method Step(ghost all: seq<K>) returns (done: bool, c: Chain<K, V>)
      requires Valid() && Coming() == all
      modifies this, d`iterators
      ensures Valid() && d.iterators >= old(d.iterators) && entry == None && nextEntry == old(nextEntry)
      ensures index != -1 && d.iterators == old(d.iterators) + if old(index) == -1 then 1 else 0
      ensures if done then all == [] == Coming() else
        && index >= 0 && index < |if table == 0 then d.t0 else d.t1| && table <= 1
        && Suffix(c, (if table == 0 then d.t0 else d.t1)[index]) && all == ChainKeys(c) + Coming()
      ensures table > old(table) || (table == old(table) && (index > old(index) || (index == old(index) && old(entry) != None)))
    {
      PlaceFacts(Where(), d.t0, d.t1);
      hide Sound, Union, Count, PowerOfTwo, BucketKeys, ChainKeys, From, Ahead, PlaceOk, Suffix;
      if entry == None {
        done, c := NextChain(all);
        WholeChain(c);
      } else {
        Continue(Where(), d.t0, d.t1);
        c := if nextEntry == None then [] else From((if table == 0 then d.t0 else d.t1)[index], nextEntry.value);
        entry := None;
        done := false;
      }
    }

    /** The next bucket, of this table or of the second one. */
    method NextChain(ghost all: seq<K>) returns (done: bool, c: Chain<K, V>)
      requires Valid() && Coming() == all && entry == None
      modifies this`table, this`index, d`iterators
      ensures Valid() && d.iterators >= old(d.iterators)
      ensures index != -1 && d.iterators == old(d.iterators) + if old(index) == -1 then 1 else 0
      ensures if done then all == [] == Coming() else
        && index >= 0 && index < |if table == 0 then d.t0 else d.t1| && table <= 1
        && c == (if table == 0 then d.t0 else d.t1)[index] && all == ChainKeys(c) + Coming()
      ensures table > old(table) || (table == old(table) && index > old(index))
    {
      hide BucketKeys, ChainKeys, From, Ahead, PlaceOk, Suffix, Dict.Valid, Onward, TableOf;
      NextPlace(Where(), d.t0, d.t1);
      OnwardMoves(Where(), d.t0, d.t1);
      table, index, done, c := MoveOn(d, table, index, entry, nextEntry);
    }

    /** dictNext: the first of the keys to come, or nothing when there is none. */
    method Next() returns (r: Option<K>)
      requires Valid()
      modifies this, d`iterators
      ensures Valid() && d.iterators >= old(d.iterators)
      ensures entry == r && (r != None ==> d.iterators > 0)
      ensures index != -1 && d.iterators == old(d.iterators) + if old(index) == -1 then 1 else 0
      ensures old(Coming()) == [] ==> r == None && Coming() == []
      ensures old(Coming()) != [] ==> r == Some(old(Coming())[0]) && Coming() == old(Coming())[1..]
    {
      hide Sound, Union, Count, PowerOfTwo, BucketKeys, ChainKeys, From, Ahead, PlaceOk, Suffix, Distinct;
      ghost var all := Coming();
      while true
        invariant Valid() && Coming() == all && d.iterators >= old(d.iterators)
        invariant old(index) != -1 ==> index != -1
        invariant d.iterators == old(d.iterators) + if old(index) == -1 && index != -1 then 1 else 0
        invariant d.t0 == old(d.t0) && d.t1 == old(d.t1)
        decreases 1 - table, |if table == 0 then d.t0 else d.t1| - index, entry != None
      {
        PlaceFacts(Where(), d.t0, d.t1);
        var done, c := Step(all);
        if done { return None; }
        if c != [] {
          ChainDistinct(Where(), d.t0, d.t1, d.hash);
          TakeEntry(Where(), c, d.t0, d.t1);
          entry, nextEntry := Some(c[0].key), if |c| == 1 then None else Some(c[1].key);
          return entry;
        }
        NoKeys(c);
      }
    }

    /** dictReleaseIterator: an iterator that was never moved holds nothing. */
    method Release()
      requires Valid()
      modifies d`iterators
      ensures d.Valid() && d.iterators == old(d.iterators) - if index == -1 then 0 else 1
    {
      if !(index == -1 && table == 0) { d.iterators := d.iterators - 1; }
    }
  }

  lemma SecondTable<K(!new), V>(d: Dict<K, V>)
    requires d.Valid()
    ensures d.Rehashing() <==> d.t1 != []
  {}

  lemma WholeChain<K, V>(c: Chain<K, V>)
    ensures Suffix(c, c)
  {}

  lemma PlaceFacts<K(!new), V>(p: Place<K>, t0: Table<K, V>, t1: Table<K, V>)
    requires PlaceOk(p, t0, t1)
    ensures p.table <= 1 && -1 <= p.index && (p.index == -1 ==> p.table == 0)
    ensures p.entry != None ==> 0 <= p.index < |TableOf(p, t0, t1)|
  {}

  lemma ChainDistinct<K(!new), V>(p: Place<K>, t0: Table<K, V>, t1: Table<K, V>, hash: K -> nat)
    requires Sound(t0, hash) && Sound(t1, hash) && p.table <= 1 && 0 <= p.index < |TableOf(p, t0, t1)|
    ensures Distinct(TableOf(p, t0, t1)[p.index])
  {}

  lemma NoKeys<K, V>(c: Chain<K, V>)
    requires c == []
    ensures ChainKeys(c) == []
  {}

  // ------------------------------------------- changes between calls of dictNext

  function Occ<T(==)>(s: seq<T>, x: T): nat {
    if s == [] then 0 else (if s[0] == x then 1 else 0) + Occ(s[1..], x)
  }

  lemma {:induction false} OccAppend<T>(a: seq<T>, b: seq<T>, x: T)
    ensures Occ(a + b, x) == Occ(a, x) + Occ(b, x)
  {
    if a == [] {
      assert a + b == b;
    } else {
      assert (a + b)[1..] == a[1..] + b;
      OccAppend(a[1..], b, x);
    }
  }

  lemma {:induction false} BlankKeys<K, V>(t: Table<K, V>, i: nat)
    requires forall j :: 0 <= j < |t| ==> t[j] == []
    ensures BucketKeys(t, i) == []
    decreases |t| - i
  {
    if i < |t| {
      BlankKeys(t, i + 1);
      NoKeys(t[i]);
    }
  }

  lemma InstalledLater<K, V>(table: nat, index: int, t0: Table<K, V>, t1: Table<K, V>, u0: Table<K, V>, u1: Table<K, V>)
    requires -1 <= index && Installed(t0, t1, u0, u1)
    ensures Later(table, index, u0, u1) == Later(table, index, t0, t1)
  {
    hide ChainKeys;
    var i: nat := index + 1;
    if t0 == [] && Blank(u0) {
      BlankKeys(u0, i);
      BlankKeys(t0, i);
    }
    if t1 == [] && Blank(u1) {
      BlankKeys(u1, i);
      BlankKeys(t1, i);
      BlankKeys(u1, 0);
      BlankKeys(t1, 0);
    }
    hide BucketKeys;
  }

  /** A table put in place beside or under the iterator changes nothing ahead. */
  lemma InstalledAhead<K(!new), V>(p: Place<K>, t0: Table<K, V>, t1: Table<K, V>, u0: Table<K, V>, u1: Table<K, V>)
    requires PlaceOk(p, t0, t1) && Installed(t0, t1, u0, u1)
    ensures PlaceOk(p, u0, u1) && Ahead(p, u0, u1) == Ahead(p, t0, t1)
  {
    InstalledLater(p.table, p.index, t0, t1, u0, u1);
    hide ChainKeys, From, Later, Blank;
  }

  /** Replacing the chain of bucket h by c changes only the occurrences in it. */
  lemma {:induction false} BucketReplaced<K, V>(t: Table<K, V>, h: nat, c: Chain<K, V>, i: nat, k: K)
    requires h < |t| && Occ(ChainKeys(c), k) == Occ(ChainKeys(t[h]), k)
    ensures Occ(BucketKeys(t[h := c], i), k) == Occ(BucketKeys(t, i), k)
    decreases |t| - i
  {
    hide ChainKeys;
    if i < |t| {
      BucketReplaced(t, h, c, i + 1, k);
      OccAppend(ChainKeys(t[i]), BucketKeys(t, i + 1), k);
      OccAppend(ChainKeys(t[h := c][i]), BucketKeys(t[h := c], i + 1), k);
    }
  }

  lemma ChainKeysAppend<K, V>(a: Chain<K, V>, b: Chain<K, V>)
    ensures ChainKeys(a + b) == ChainKeys(a) + ChainKeys(b)
  {}

  lemma OneKey<K, V>(e: Entry<K, V>, k: K)
    ensures Occ(ChainKeys([e]), k) == if e.key == k then 1 else 0
  {
    assert ChainKeys([e]) == [e.key];
    assert ([e.key])[1..] == [];
  }

  lemma HeadAdded<K, V>(e: Entry<K, V>, c: Chain<K, V>, k: K)
    requires k != e.key
    ensures Occ(ChainKeys([e] + c), k) == Occ(ChainKeys(c), k)
  {
    hide ChainKeys;
    ChainKeysAppend([e], c);
    OneKey(e, k);
    OccAppend(ChainKeys([e]), ChainKeys(c), k);
  }

  lemma EntryRemoved<K, V>(c: Chain<K, V>, j: nat, k: K)
    requires j < |c| && k != c[j].key
    ensures Occ(ChainKeys(c[..j] + c[j + 1..]), k) == Occ(ChainKeys(c), k)
  {
    hide ChainKeys;
    assert c == c[..j] + ([c[j]] + c[j + 1..]);
    ChainKeysAppend(c[..j], c[j + 1..]);
    ChainKeysAppend(c[..j], [c[j]] + c[j + 1..]);
    OccAppend(ChainKeys(c[..j]), ChainKeys(c[j + 1..]), k);
    OccAppend(ChainKeys(c[..j]), ChainKeys([c[j]] + c[j + 1..]), k);
    HeadAdded(c[j], c[j + 1..], k);
  }

  /** A new head does not disturb a search for another key. */
  lemma FromHead<K, V>(e: Entry<K, V>, c: Chain<K, V>, n: K)
    requires n != e.key
    ensures From([e] + c, n) == From(c, n)
  {
    assert ([e] + c)[1..] == c;
  }

  /** Removing an entry leaves the rest from another key on as it was, but for
      that entry itself. */
  lemma {:induction false} FromRemoved<K, V>(c: Chain<K, V>, j: nat, n: K, k: K)
    requires j < |c| && n != c[j].key && k != c[j].key && From(c, n) != []
    ensures var d := c[..j] + c[j + 1..];
            From(d, n) != [] && Occ(ChainKeys(From(d, n)), k) == Occ(ChainKeys(From(c, n)), k)
  {
    var d := c[..j] + c[j + 1..];
    hide ChainKeys;
    if j == 0 {
      assert d == c[1..];
    } else if c[0].key == n {
      assert d[0] == c[0];
      EntryRemoved(c, j, k);
    } else {
      assert d[1..] == c[1..][..j - 1] + c[1..][j..];
      FromRemoved(c[1..], j - 1, n, k);
    }
  }

  /** The buckets after the current one when bucket h of one table changes. */
  lemma LaterReplaced<K, V>(table: nat, index: int, t0: Table<K, V>, t1: Table<K, V>, h: nat, c: Chain<K, V>, k: K)
    requires -1 <= index
    ensures h < |t0| && Occ(ChainKeys(c), k) == Occ(ChainKeys(t0[h]), k) ==>
              Occ(Later(table, index, t0[h := c], t1), k) == Occ(Later(table, index, t0, t1), k)
    ensures h < |t1| && Occ(ChainKeys(c), k) == Occ(ChainKeys(t1[h]), k) ==>
              Occ(Later(table, index, t0, t1[h := c]), k) == Occ(Later(table, index, t0, t1), k)
  {
    hide ChainKeys, BucketKeys, Occ;
    var i: nat := index + 1;
    if h < |t0| && Occ(ChainKeys(c), k) == Occ(ChainKeys(t0[h]), k) {
      BucketReplaced(t0, h, c, i, k);
      OccAppend(BucketKeys(t0[h := c], i), BucketKeys(t1, 0), k);
      OccAppend(BucketKeys(t0, i), BucketKeys(t1, 0), k);
    }
    if h < |t1| && Occ(ChainKeys(c), k) == Occ(ChainKeys(t1[h]), k) {
      BucketReplaced(t1, h, c, i, k);
      BucketReplaced(t1, h, c, 0, k);
      OccAppend(BucketKeys(t0, i), BucketKeys(t1[h := c], 0), k);
      OccAppend(BucketKeys(t0, i), BucketKeys(t1, 0), k);
    }
  }

  /** A chain that changes keeps the place of the iterator and the occurrences
      of k in its rest. */
  ghost predicate KeepsRest<K, V>(p: Place<K>, c: Chain<K, V>, d: Chain<K, V>, k: K) {
    p.next != None && From(c, p.next.value) != [] ==>
      From(d, p.next.value) != [] && Occ(ChainKeys(From(d, p.next.value)), k) == Occ(ChainKeys(From(c, p.next.value)), k)
  }

  lemma ReplacedAhead<K(!new), V>(p: Place<K>, t0: Table<K, V>, t1: Table<K, V>, second: bool, h: nat, c: Chain<K, V>, k: K)
    requires PlaceOk(p, t0, t1) && h < |if second then t1 else t0|
    requires Occ(ChainKeys(c), k) == Occ(ChainKeys((if second then t1 else t0)[h]), k)
    requires p.entry != None ==> KeepsRest(p, (if second then t1 else t0)[h], c, k)
    ensures var u0 := if second then t0 else t0[h := c];
            var u1 := if second then t1[h := c] else t1;
            PlaceOk(p, u0, u1) && Occ(Ahead(p, u0, u1), k) == Occ(Ahead(p, t0, t1), k)
  {
    var u0 := if second then t0 else t0[h := c];
    var u1 := if second then t1[h := c] else t1;
    LaterReplaced(p.table, p.index, t0, t1, h, c, k);
    hide ChainKeys, From, Later, Occ;
    RestReplaced(p, t0, t1, second, h, c, k);
    OccAppend(RestOfChain(p, TableOf(p, t0, t1)), Later(p.table, p.index, t0, t1), k);
    OccAppend(RestOfChain(p, TableOf(p, u0, u1)), Later(p.table, p.index, u0, u1), k);
  }

  lemma RestReplaced<K(!new), V>(p: Place<K>, t0: Table<K, V>, t1: Table<K, V>, second: bool, h: nat, c: Chain<K, V>, k: K)
    requires PlaceOk(p, t0, t1) && h < |if second then t1 else t0|
    requires p.entry != None ==> KeepsRest(p, (if second then t1 else t0)[h], c, k)
    ensures var u0 := if second then t0 else t0[h := c];
            var u1 := if second then t1[h := c] else t1;
            PlaceOk(p, u0, u1) && Occ(RestOfChain(p, TableOf(p, u0, u1)), k) == Occ(RestOfChain(p, TableOf(p, t0, t1)), k)
  {
    hide ChainKeys, From, Occ;
  }

  /** An entry with a new key added: what lies ahead stays, but for that key. */
  lemma GrownAhead<K(!new), V>(p: Place<K>, t0: Table<K, V>, t1: Table<K, V>, u0: Table<K, V>, u1: Table<K, V>,
                               hash: K -> nat, e: Entry<K, V>, k: K)
    requires PlaceOk(p, t0, t1) && Grown(t0, t1, u0, u1, hash, e) && k != e.key
    requires p.entry != None ==> p.next != Some(e.key)
    ensures PlaceOk(p, u0, u1) && Occ(Ahead(p, u0, u1), k) == Occ(Ahead(p, t0, t1), k)
  {
    var t: Table<K, V> := if t1 != [] then t1 else t0;
    var h := hash(e.key) % |t|;
    HeadAdded(e, t[h], k);
    if p.entry != None && p.next != None { FromHead(e, t[h], p.next.value); }
    hide ChainKeys, From, Occ, PlaceOk, Ahead;
    ReplacedAhead(p, t0, t1, t1 != [], h, [e] + t[h], k);
  }

  /** The entry returned last deleted: what lies ahead stays. */
  lemma DroppedAhead<K(!new), V>(p: Place<K>, t0: Table<K, V>, t1: Table<K, V>, u0: Table<K, V>, u1: Table<K, V>, key: K, k: K)
    requires PlaceOk(p, t0, t1) && Dropped(t0, t1, u0, u1, key) && p.entry == Some(key) && k != key
    ensures PlaceOk(p, u0, u1) && Occ(Ahead(p, u0, u1), k) == Occ(Ahead(p, t0, t1), k)
  {
    var second := !(u1 == t1 && UnlinkedFrom(t0, u0, key));
    var t: Table<K, V> := if second then t1 else t0;
    var u: Table<K, V> := if second then u1 else u0;
    var i, j :| 0 <= i < |t| && 0 <= j < |t[i]| && t[i][j].key == key && u == t[i := t[i][..j] + t[i][j + 1..]];
    EntryRemoved(t[i], j, k);
    assert p.next != Some(key);
    if p.next != None && From(t[i], p.next.value) != [] { FromRemoved(t[i], j, p.next.value, k); }
    hide ChainKeys, From, Occ, PlaceOk, Ahead;
    ReplacedAhead(p, t0, t1, second, i, t[i][..j] + t[i][j + 1..], k);
  }

  // ------------------------------------------------------------- whole iterations

  lemma {:induction false} FoundOnce<K, V>(c: Chain<K, V>, k: K)
    requires Distinct(c)
    ensures Occ(ChainKeys(c), k) == if ChainFind(c, k) == None then 0 else 1
  {
    if c != [] {
      FirstKey(c);
      FoundOnce(c[1..], k);
      ChainFindNone(c[1..], k);
      assert ChainKeys(c)[1..] == ChainKeys(c[1..]);
    } else {
      NoKeys(c);
    }
  }

  /** A table lists each of its keys once. */
  lemma {:induction false} ListedOnce<K, V>(t: Table<K, V>, hash: K -> nat, i: nat, k: K)
    requires Sound(t, hash)
    ensures Occ(BucketKeys(t, i), k) ==
            if |t| > 0 && i <= hash(k) % |t| && Find(t, hash, k) != None then 1 else 0
    decreases |t| - i
  {
    if i < |t| {
      ListedOnce(t, hash, i + 1, k);
      FoundOnce(t[i], k);
      if hash(k) % |t| != i { Elsewhere(t, hash, i, k); }
      hide ChainKeys, Sound, ChainFind;
      OccAppend(ChainKeys(t[i]), BucketKeys(t, i + 1), k);
    }
  }

  lemma Elsewhere<K, V>(t: Table<K, V>, hash: K -> nat, i: nat, k: K)
    requires Sound(t, hash) && i < |t| && hash(k) % |t| != i
    ensures ChainFind(t[i], k) == None
  {
    ChainFindNone(t[i], k);
  }

  /** A fresh iterator has every key of the dictionary ahead of it, once. */
  lemma AllAhead<K(!new), V>(t0: Table<K, V>, t1: Table<K, V>, hash: K -> nat, m: map<K, V>, k: K)
    requires Sound(t0, hash) && Sound(t1, hash) && Union(t0, t1, hash, m)
    ensures var p: Place<K> := Place(0, -1, None, None);
            PlaceOk(p, t0, t1) && Occ(Ahead(p, t0, t1), k) == if k in m then 1 else 0
  {
    hide Sound, ChainKeys, From;
    ListedOnce(t0, hash, 0, k);
    ListedOnce(t1, hash, 0, k);
    OccAppend(BucketKeys(t0, 0), BucketKeys(t1, 0), k);
    assert Agrees(Find(t0, hash, k), Find(t1, hash, k), m, k);
    hide BucketKeys, Union;
    assert [] + Later(0, -1, t0, t1) == Later(0, -1, t0, t1);
  }

  /** Iterator and tables between two steps. */
  datatype Moment<K, V> = Moment(place: Place<K>, t0: Table<K, V>, t1: Table<K, V>)

  /** A call of dictNext with its result, or one of the changes that are allowed
      while a safe iterator is open. */
  datatype Act<K, V> = Call(r: Option<K>) | Install | Add(e: Entry<K, V>) | DeleteLast(key: K)

  /** The key is not the one the iterator has saved, as new keys never are. */
  predicate Fresh<K(==), V>(key: K, a: Moment<K, V>) { a.place.entry != None ==> a.place.next != Some(key) }

  lemma NewKeysAreFresh<K(!new), V>(key: K, a: Moment<K, V>, hash: K -> nat, m: map<K, V>)
    requires PlaceOk(a.place, a.t0, a.t1) && Sound(a.t0, hash) && Sound(a.t1, hash) && Union(a.t0, a.t1, hash, m) && key !in m
    ensures Fresh(key, a)
  {
    var p := a.place;
    assert Agrees(Find(a.t0, hash, key), Find(a.t1, hash, key), m, key);
    if p.entry != None && p.next == Some(key) {
      var t := TableOf(p, a.t0, a.t1);
      var c := From(t[p.index], key);
      FromIsSuffix(t[p.index], key);
      var j := |t[p.index]| - |c|;
      assert c[0] == t[p.index][j];
      ChainFindAt(t[p.index], j);
    }
  }

  ghost predicate Acts<K(!new), V>(a: Moment<K, V>, act: Act<K, V>, b: Moment<K, V>, hash: K -> nat) {
    && PlaceOk(a.place, a.t0, a.t1)
    && match act {
      case Call(r) =>
        PlaceOk(b.place, b.t0, b.t1)
        && (var s := Ahead(a.place, a.t0, a.t1);
            var u := Ahead(b.place, b.t0, b.t1);
            if s == [] then r == None && u == [] else r == Some(s[0]) && u == s[1..])
      case Install => b.place == a.place && Installed(a.t0, a.t1, b.t0, b.t1)
      case Add(e) => b.place == a.place && Fresh(e.key, a) && Grown(a.t0, a.t1, b.t0, b.t1, hash, e)
      case DeleteLast(key) => b.place == a.place && a.place.entry == Some(key) && Dropped(a.t0, a.t1, b.t0, b.t1, key)
    }
  }

  /** k is neither added nor deleted. */
  predicate Spares<K(==), V>(act: Act<K, V>, k: K) {
    match act
    case Add(e) => e.key != k
    case DeleteLast(key) => key != k
    case _ => true
  }

  function Returned<K, V>(acts: seq<Act<K, V>>): seq<K> {
    if acts == [] then []
    else (if acts[0].Call? && acts[0].r != None then [acts[0].r.value] else []) + Returned(acts[1..])
  }

  /** What is returned and what lies ahead together: k exactly as often before. */
  lemma ActConserves<K(!new), V>(a: Moment<K, V>, act: Act<K, V>, b: Moment<K, V>, hash: K -> nat, k: K)
    requires Acts(a, act, b, hash) && Spares(act, k)
    ensures PlaceOk(b.place, b.t0, b.t1)
    ensures Occ(Returned([act]), k) + Occ(Ahead(b.place, b.t0, b.t1), k) == Occ(Ahead(a.place, a.t0, a.t1), k)
  {
    ReturnedOne(act, k);
    hide PlaceOk, Ahead, Installed, Grown, Dropped, Returned;
    match act
    case Call(r) =>
    case Install => InstalledAhead(a.place, a.t0, a.t1, b.t0, b.t1);
    case Add(e) => GrownAhead(a.place, a.t0, a.t1, b.t0, b.t1, hash, e, k);
    case DeleteLast(key) => DroppedAhead(a.place, a.t0, a.t1, b.t0, b.t1, key, k);
  }

  lemma ReturnedOne<K, V>(act: Act<K, V>, k: K)
    ensures Occ(Returned([act]), k) == if act.Call? && act.r == Some(k) then 1 else 0
  {
    assert [act][1..] == [];
  }

  ghost predicate Iteration<K(!new), V>(ms: seq<Moment<K, V>>, acts: seq<Act<K, V>>, hash: K -> nat) {
    |ms| == |acts| + 1 && forall i :: 0 <= i < |acts| ==> Acts(ms[i], acts[i], ms[i + 1], hash)
  }

  lemma {:induction false} Conserved<K(!new), V>(ms: seq<Moment<K, V>>, acts: seq<Act<K, V>>, hash: K -> nat, k: K)
    requires |ms| == |acts| + 1 && Iteration(ms, acts, hash) && PlaceOk(ms[0].place, ms[0].t0, ms[0].t1)
    requires forall i :: 0 <= i < |acts| ==> Spares(acts[i], k)
    ensures var z := ms[|acts|];
            && PlaceOk(z.place, z.t0, z.t1)
            && Occ(Returned(acts), k) + Occ(Ahead(z.place, z.t0, z.t1), k) == Occ(Ahead(ms[0].place, ms[0].t0, ms[0].t1), k)
    decreases |acts|
  {
    hide PlaceOk, Ahead, Acts, Spares, Returned, Iteration, Occ;
    if acts != [] {
      FirstAct(ms, acts, hash);
      ActConserves(ms[0], acts[0], ms[1], hash, k);
      Conserved(ms[1..], acts[1..], hash, k);
      OccAppend(Returned([acts[0]]), Returned(acts[1..]), k);
    } else {
      NoActs<K, V>(k);
    }
  }

  lemma NoActs<K, V>(k: K)
    ensures Occ(Returned<K, V>([]), k) == 0
  {}

  lemma FirstAct<K(!new), V>(ms: seq<Moment<K, V>>, acts: seq<Act<K, V>>, hash: K -> nat)
    requires Iteration(ms, acts, hash) && acts != []
    ensures |ms| == |acts| + 1 && Acts(ms[0], acts[0], ms[1], hash) && Iteration(ms[1..], acts[1..], hash)
    ensures Returned(acts) == Returned([acts[0]]) + Returned(acts[1..])
  {
    hide Acts;
    forall i | 0 <= i < |acts[1..]|
      ensures Acts(ms[1..][i], acts[1..][i], ms[1..][i + 1], hash)
    {
      assert Acts(ms[i + 1], acts[i + 1], ms[i + 2], hash);
    }
    assert [acts[0]][1..] == [];
  }

  /** Safe iteration: from a fresh iterator to the first call that finds nothing,
      with any entries added and the entry returned last deleted in between, a
      key present throughout is returned exactly once. */
  lemma EachExactlyOnce<K(!new), V>(ms: seq<Moment<K, V>>, acts: seq<Act<K, V>>, hash: K -> nat, m: map<K, V>, k: K)
    requires Iteration(ms, acts, hash) && acts != [] && acts[|acts| - 1] == Call(None)
    requires ms[0].place == Place(0, -1, None, None)
    requires Sound(ms[0].t0, hash) && Sound(ms[0].t1, hash) && Union(ms[0].t0, ms[0].t1, hash, m) && k in m
    requires forall i :: 0 <= i < |acts| ==> Spares(acts[i], k)
    ensures Occ(Returned(acts), k) == 1
  {
    AllAhead(ms[0].t0, ms[0].t1, hash, m, k);
    Conserved(ms, acts, hash, k);
    hide Sound, Union, PlaceOk, Ahead;
    assert Acts(ms[|acts| - 1], acts[|acts| - 1], ms[|acts|], hash);
  }
}
