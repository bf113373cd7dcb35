// The two-way index of WATCH (multi.c).
module Watch {
  import opened Bytes
  import opened Sequences

  type Client = nat

  /** A key in one database. */
  datatype Watched = Watched(key: bytes, db: nat)

  ghost predicate NoDup<T>(s: seq<T>) {
    forall i, j :: 0 <= i < j < |s| ==> s[i] != s[j]
  }

  lemma AppendNoDup<T>(s: seq<T>, x: T)
    requires NoDup(s) && x !in s
    ensures NoDup(s + [x])
  {}

  /** Removing the one occurrence of x. */
  lemma RemoveNoDup<T>(s: seq<T>, i: nat)
    requires NoDup(s) && i < |s|
    ensures NoDup(RemoveAt(s, i)) && forall y :: y in RemoveAt(s, i) <==> y in s && y != s[i]
  {
    var r := RemoveAt(s, i);
    hide RemoveAt;
    forall y | y in s && y != s[i]
      ensures y in r
    {
      var j :| 0 <= j < |s| && s[j] == y;
      assert r[if j < i then j else j - 1] == y;
    }
  }

  method Search<T(==)>(s: seq<T>, x: T) returns (found: bool, i: nat)
    ensures found ==> i < |s| && s[i] == x
    ensures !found ==> x !in s
  {
    i := 0;
    while i < |s|
      invariant i <= |s| && x !in s[..i]
    {
      if s[i] == x { return true, i; }
      i := i + 1;
    }
    return false, i;
  }

  /** c is listed for w exactly when w is listed for c, once each; no list of
      clients is empty; each entry holds a reference to its key. */
  ghost predicate Agree(keys: map<Client, seq<Watched>>, index: map<Watched, seq<Client>>, refs: map<Watched, nat>) {
    && (forall c :: c in keys ==> NoDup(keys[c]))
    && (forall w :: w in index ==> NoDup(index[w]) && index[w] != [])
    && (forall c, w :: c in keys && w in keys[c] ==> w in index && c in index[w])
    && (forall c, w :: w in index && c in index[w] ==> c in keys && w in keys[c])
    && refs.Keys == index.Keys && forall w :: w in index ==> refs[w] == |index[w]| + 1
  }

  lemma Watching(keys: map<Client, seq<Watched>>, index: map<Watched, seq<Client>>, refs: map<Watched, nat>, c: Client, w: Watched)
    requires Agree(keys, index, refs) && c in keys && w !in keys[c]
    ensures var l := if w in index then index[w] else [];
            Agree(keys[c := keys[c] + [w]], index[w := l + [c]], refs[w := |l| + 2])
  {
    var l := if w in index then index[w] else [];
    AppendNoDup(keys[c], w);
    AppendNoDup(l, c);
    hide NoDup;
  }

  lemma Unwatching(keys: map<Client, seq<Watched>>, index: map<Watched, seq<Client>>, refs: map<Watched, nat>, c: Client,
                   w: Watched, i: nat)
    requires Agree(keys, index, refs) && c in keys && keys[c] != [] && w == keys[c][0]
    requires w in index && i < |index[w]| && index[w][i] == c
    ensures var l := RemoveAt(index[w], i);
            Agree(keys[c := keys[c][1..]], if l == [] then index - {w} else index[w := l],
                  if l == [] then refs - {w} else refs[w := |l| + 1])
  {
    RemoveNoDup(keys[c], 0);
    RemoveNoDup(index[w], i);
    assert RemoveAt(keys[c], 0) == keys[c][1..];
    hide NoDup, RemoveAt;
  }

  class Server {
    var keys: map<Client, seq<Watched>>
    var index: map<Watched, seq<Client>>
    /** References to keys that watching holds. */
    var refs: map<Watched, nat>
    var dirty: set<Client>

    ghost predicate Valid()
      reads this
    {
      Agree(keys, index, refs)
    }

    constructor (clients: set<Client>)
      ensures Valid() && keys.Keys == clients && dirty == {}
    {
      keys := map c | c in clients :: [];
      index, refs, dirty := map[], map[], {};
    }

    /** watchForKey. */
    method WatchForKey(c: Client, w: Watched)
      requires Valid() && c in keys
      modifies this`keys, this`index, this`refs
      ensures Valid() && keys == old(keys)[c := if w in old(keys)[c] then old(keys)[c] else old(keys)[c] + [w]]
    {
      hide Agree;
      var found, i := Search(keys[c], w);
      if found {
        assert keys == keys[c := keys[c]];
        return;
      }
      ghost var index0, refs0, l := index, refs, if w in index then index[w] else [];
      Watching(keys, index, refs, c, w);
      RefsOf(keys, index, refs, w);
      if w !in index {
        index := index[w := []];
        refs := refs[w := 1];
      }
      index := index[w := index[w] + [c]];
      refs := refs[w := refs[w] + 1];
      assert index == index0[w := l + [c]] && refs == refs0[w := |l| + 2];
      keys := keys[c := keys[c] + [w]];
    }

    /** unwatchAllKeys. */
    method UnwatchAllKeys(c: Client)
      requires Valid() && c in keys
      modifies this`keys, this`index, this`refs
      ensures Valid() && keys == old(keys)[c := []]
    {
      hide Agree, RemoveAt;
      while keys[c] != []
        invariant Valid() && c in keys && keys == old(keys)[c := keys[c]]
        decreases |keys[c]|
      {
        var w := keys[c][0];
        Listed(keys, index, refs, c, w);
        ghost var index0, refs0 := index, refs;
        var clients := index[w];
        var found, i := Search(clients, c);
        ghost var l := RemoveAt(clients, i);
        Unwatching(keys, index, refs, c, w, i);
        RefsOf(keys, index, refs, w);
        index := index[w := RemoveAt(clients, i)];
        refs := refs[w := refs[w] - 1];
        if |index[w]| == 0 {
          index := index - {w};
          refs := refs - {w};
        }
        assert index == if l == [] then index0 - {w} else index0[w := l];
        assert refs == if l == [] then refs0 - {w} else refs0[w := |l| + 1];
        keys := keys[c := keys[c][1..]];
      }
    }

    /** touchWatchedKey: exactly the clients that watch w become dirty. */
    method TouchWatchedKey(w: Watched)
      requires Valid()
      modifies this`dirty
      ensures forall c :: c in dirty <==> c in old(dirty) || (c in keys && w in keys[c])
    {
      SameWatchers(keys, index, refs, w);
      if w !in index { return; }
      var clients := index[w];
      var i := 0;
      while i < |clients|
        invariant i <= |clients| && forall c :: c in dirty <==> c in old(dirty) || c in clients[..i]
      {
        dirty := dirty + {clients[i]};
        i := i + 1;
      }
      assert clients[..i] == clients;
    }

    /** touchWatchedKeysOnFlush: of one database or, for -1, of all; exists are
        the keys that the flush removes. */
    method TouchOnFlush(dbid: int, existing: set<Watched>)
      requires Valid()
      modifies this`dirty
      ensures forall c :: c in dirty <==> c in old(dirty) || (c in keys && Hit(keys[c], dbid, existing))
    {
      var rest := keys.Keys;
      while rest != {}
        invariant rest <= keys.Keys
        invariant forall c :: c in dirty <==> c in old(dirty) || (c in keys && c !in rest && Hit(keys[c], dbid, existing))
        decreases |rest|
      {
        var c :| c in rest;
        var list, i := keys[c], 0;
        var before := dirty;
        while i < |list|
          invariant i <= |list| && dirty == if Hit(list[..i], dbid, existing) then before + {c} else before
        {
          assert list[..i + 1] == list[..i] + [list[i]];
          if (dbid == -1 || list[i].db == dbid) && list[i] in existing { dirty := dirty + {c}; }
          HitNext(list, i, dbid, existing);
          i := i + 1;
        }
        assert list[..i] == list;
        rest := rest - {c};
      }
    }
  }

  /** Whether a flush removes one of these keys. */
  ghost predicate Hit(ws: seq<Watched>, dbid: int, existing: set<Watched>) {
    exists i :: 0 <= i < |ws| && (dbid == -1 || ws[i].db == dbid) && ws[i] in existing
  }

  lemma HitNext(ws: seq<Watched>, i: nat, dbid: int, existing: set<Watched>)
    requires i < |ws|
    ensures Hit(ws[..i + 1], dbid, existing) <==>
            Hit(ws[..i], dbid, existing) || ((dbid == -1 || ws[i].db == dbid) && ws[i] in existing)
  {
    if Hit(ws[..i], dbid, existing) {
      var j :| 0 <= j < |ws[..i]| && (dbid == -1 || ws[..i][j].db == dbid) && ws[..i][j] in existing;
      assert ws[..i + 1][j] == ws[..i][j];
    }
    assert ws[..i + 1][i] == ws[i];
    if Hit(ws[..i + 1], dbid, existing) {
      var j :| 0 <= j < |ws[..i + 1]| && (dbid == -1 || ws[..i + 1][j].db == dbid) && ws[..i + 1][j] in existing;
      assert j < i ==> ws[..i][j] == ws[..i + 1][j];
    }
  }

  lemma SameWatchers(keys: map<Client, seq<Watched>>, index: map<Watched, seq<Client>>, refs: map<Watched, nat>, w: Watched)
    requires Agree(keys, index, refs)
    ensures forall c :: c in keys && w in keys[c] <==> w in index && c in index[w]
  {}

  lemma RefsOf(keys: map<Client, seq<Watched>>, index: map<Watched, seq<Client>>, refs: map<Watched, nat>, w: Watched)
    requires Agree(keys, index, refs)
    ensures w in refs <==> w in index
    ensures w in index ==> refs[w] == |index[w]| + 1
  {}

  lemma Listed(keys: map<Client, seq<Watched>>, index: map<Watched, seq<Client>>, refs: map<Watched, nat>, c: Client, w: Watched)
    requires Agree(keys, index, refs) && c in keys && w in keys[c]
    ensures w in index && c in index[w]
  {}
}
