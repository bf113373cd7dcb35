// The replication backlog (replication.c): a ring buffer and the offset
// arithmetic around it.
module Backlog {
  import opened Bytes
  import opened Options

  const CONFIG_REPL_BACKLOG_MIN_SIZE: nat := 16384

  /** What the backlog stands for: the offset of the last byte of the stream
      and, while the buffer exists, the last bytes of the stream. */
  datatype Log = Log(offset: nat, size: nat, window: Option<bytes>) {
    ghost predicate Ok() {
      size > 0 && (window.Some? ==> |window.value| <= size && |window.value| <= offset)
    }

    /** The offset of the first byte held. */
    function First(): int
      requires window.Some?
    {
      offset - |window.value| + 1
    }
  }

  /** The last n bytes of s, or all of them. */
  function Tail(s: bytes, n: nat): (r: bytes)
    ensures |r| == if |s| <= n then |s| else n
  {
    if |s| <= n then s else s[|s| - n..]
  }

  function Created(l: Log): Log { Log(l.offset + 1, l.size, Some([])) }

  function Freed(l: Log): Log { l.(window := None) }

  function Resized(l: Log, newsize: int): Log {
    var n: nat := if newsize < CONFIG_REPL_BACKLOG_MIN_SIZE then CONFIG_REPL_BACKLOG_MIN_SIZE else newsize;
    if n == l.size then l else Log(l.offset, n, if l.window.Some? then Some([]) else None)
  }

  function Fed(l: Log, data: bytes): Log
    requires l.window.Some?
  {
    Log(l.offset + |data|, l.size, Some(Tail(l.window.value + data, l.size)))
  }

  /** The test of masterTryPartialResynchronization. */
  predicate Accepts(l: Log, offset: int) {
    l.window.Some? && l.First() <= offset <= l.First() + |l.window.value|
  }

  function Sent(l: Log, offset: int): bytes
    requires Accepts(l, offset)
  {
    l.window.value[offset - l.First()..]
  }

  /** getPsyncInitialOffset. */
  function InitialOffset(l: Log): nat {
    if l.window.None? then l.offset + 1 else l.offset
  }

  // ---------------------------------------------------------------- the ring

  /** Where the a-th last byte is kept when idx is the next one to write. */
  function Slot(idx: nat, size: nat, a: nat): (k: nat)
    requires idx < size && 1 <= a <= size
    ensures k < size
  {
    if a <= idx then idx - a else idx + size - a
  }

  /** The ring holds the last bytes of s, as many as it has room for. */
  ghost predicate Holds(buf: seq<u8>, idx: nat, s: bytes) {
    idx < |buf| && forall a :: 1 <= a <= |s| && a <= |buf| ==> buf[Slot(idx, |buf|, a)] == s[|s| - a]
  }

  /** One memcpy of the feeding loop. */
  lemma FeedChunk(buf: seq<u8>, next: seq<u8>, idx: nat, s: bytes, chunk: bytes)
    requires Holds(buf, idx, s) && idx + |chunk| <= |buf| == |next|
    requires forall k :: 0 <= k < |buf| ==> next[k] == if idx <= k < idx + |chunk| then chunk[k - idx] else buf[k]
    ensures Holds(next, if idx + |chunk| == |buf| then 0 else idx + |chunk|, s + chunk)
  {
    var t, n := |chunk|, |buf|;
    var i2 := if idx + t == n then 0 else idx + t;
    var all := s + chunk;
    forall a | 1 <= a <= |all| && a <= n
      ensures next[Slot(i2, n, a)] == all[|all| - a]
    {
      if a <= t {
        assert Slot(i2, n, a) == idx + t - a;
      } else {
        assert Slot(i2, n, a) == Slot(idx, n, a - t);
        assert buf[Slot(idx, n, a - t)] == s[|s| - (a - t)];
      }
    }
  }

  /** Bytes that no longer fit are forgotten. */
  lemma HoldsTail(buf: seq<u8>, idx: nat, s: bytes)
    requires Holds(buf, idx, s)
    ensures Holds(buf, idx, Tail(s, |buf|))
  {
    var t := Tail(s, |buf|);
    forall a | 1 <= a <= |t| && a <= |buf|
      ensures buf[Slot(idx, |buf|, a)] == t[|t| - a]
    {
      assert t[|t| - a] == s[|s| - a];
    }
  }

  class Backlog {
    var masterReplOffset: nat
    var replBacklog: array?<u8>
    var replBacklogSize: nat
    var replBacklogHistlen: nat
    var replBacklogIdx: nat
    var replBacklogOff: int
    ghost var window: bytes

    ghost predicate Valid()
      reads this, replBacklog
    {
      && replBacklogSize > 0
      && (replBacklog != null ==>
        && replBacklog.Length == replBacklogSize
        && Holds(replBacklog[..], replBacklogIdx, window)
        && |window| == replBacklogHistlen <= replBacklogSize
        && replBacklogHistlen <= masterReplOffset
        && replBacklogOff == masterReplOffset - replBacklogHistlen + 1)
    }

    ghost function View(): (l: Log)
      reads this
    {
      Log(masterReplOffset, replBacklogSize, if replBacklog == null then None else Some(window))
    }

    constructor (size: nat)
      requires size > 0
      ensures Valid() && View() == Log(0, size, None)
    {
      masterReplOffset, replBacklog, replBacklogSize := 0, null, size;
      replBacklogHistlen, replBacklogIdx, replBacklogOff := 0, 0, 0;
      window := [];
    }

    /** createReplicationBacklog. */
    method Create()
      requires Valid() && replBacklog == null
      modifies this
      ensures Valid() && View() == Created(old(View())) && fresh(replBacklog)
      ensures masterReplOffset == old(masterReplOffset) + 1 && window == [] && replBacklogSize == old(replBacklogSize)
    {
      replBacklog := new u8[replBacklogSize](_ => 0);
      replBacklogHistlen, replBacklogIdx := 0, 0;
      masterReplOffset := masterReplOffset + 1;
      replBacklogOff := masterReplOffset + 1;
      window := [];
    }

    /** resizeReplicationBacklog. */
    method Resize(newsize0: int)
      requires Valid()
      modifies this
      ensures Valid() && View() == Resized(old(View()), newsize0)
      ensures masterReplOffset == old(masterReplOffset) && (replBacklog == null <==> old(replBacklog) == null)
      ensures replBacklogSize == if newsize0 < CONFIG_REPL_BACKLOG_MIN_SIZE then CONFIG_REPL_BACKLOG_MIN_SIZE else newsize0
      ensures replBacklog != null ==> window == if replBacklogSize == old(replBacklogSize) then old(window) else []
      ensures replBacklog == old(replBacklog) || fresh(replBacklog)
    {
      var newsize: nat := if newsize0 < CONFIG_REPL_BACKLOG_MIN_SIZE then CONFIG_REPL_BACKLOG_MIN_SIZE else newsize0;
      if replBacklogSize == newsize { return; }
      replBacklogSize := newsize;
      if replBacklog != null {
        replBacklog := new u8[replBacklogSize](_ => 0);
        replBacklogHistlen, replBacklogIdx := 0, 0;
        replBacklogOff := masterReplOffset + 1;
        window := [];
      }
    }

    /** freeReplicationBacklog. */
    method Free()
      requires Valid()
      modifies this
      ensures Valid() && View() == Freed(old(View()))
      ensures replBacklog == null && masterReplOffset == old(masterReplOffset) && replBacklogSize == old(replBacklogSize)
    {
      replBacklog := null;
    }

    /** feedReplicationBacklog. */
    method Feed(p0: bytes)
      requires Valid() && replBacklog != null
      modifies this, replBacklog
      ensures Valid() && View() == Fed(old(View()), p0) && replBacklog == old(replBacklog)
      ensures masterReplOffset == old(masterReplOffset) + |p0| && replBacklogSize == old(replBacklogSize)
      ensures var all := old(window) + p0;
              window == if |all| <= replBacklogSize then all else all[|all| - replBacklogSize..]
    {
      hide Holds, Slot, Tail;
      var p := p0;
      ghost var s := window;
      var buf := replBacklog;
      HoldsIndex(buf[..], replBacklogIdx, window);
      masterReplOffset := masterReplOffset + |p|;
      while |p| > 0
        invariant replBacklog == buf == old(replBacklog) && replBacklogSize == old(replBacklogSize) == buf.Length
        invariant replBacklogIdx < buf.Length && |p| <= |p0| && p == p0[|p0| - |p|..]
        invariant masterReplOffset == old(masterReplOffset) + |p0|
        invariant s == old(window) + p0[..|p0| - |p|] && replBacklogHistlen == |s|
        invariant Holds(buf[..], replBacklogIdx, s)
        decreases |p|
      {
        var thislen := replBacklogSize - replBacklogIdx;
        if thislen > |p| { thislen := |p|; }
        NextChunk(p0, p, thislen, old(window), s);
        Copy(buf, replBacklogIdx, p[..thislen], s);
        s := s + p[..thislen];
        replBacklogIdx := replBacklogIdx + thislen;
        if replBacklogIdx == replBacklogSize { replBacklogIdx := 0; }
        p := p[thislen..];
        replBacklogHistlen := replBacklogHistlen + thislen;
      }
      FeedDone(old(window), p0, s, p);
      HoldsTail(buf[..], replBacklogIdx, s);
      TailIs(s, replBacklogSize);
      if replBacklogHistlen > replBacklogSize { replBacklogHistlen := replBacklogSize; }
      replBacklogOff := masterReplOffset - replBacklogHistlen + 1;
      window := Tail(s, replBacklogSize);
    }

    /** The offset part of the accept test: the bytes from offset on, none up to
        all of the window, are the end of the window. */
    method Accept(offset: int) returns (ok: bool)
      requires Valid()
      ensures ok == Accepts(View(), offset)
      ensures ok <==> replBacklog != null && 0 <= masterReplOffset + 1 - offset <= |window|
    {
      ok := !(replBacklog == null || offset < replBacklogOff || offset > replBacklogOff + replBacklogHistlen);
    }

    /** addReplyReplicationBacklog for an offset that passed the test. */
    method AddReply(offset: int) returns (reply: bytes)
      requires Valid() && replBacklog != null && 0 <= masterReplOffset + 1 - offset <= |window|
      ensures Accepts(View(), offset) && reply == Sent(View(), offset)
      ensures |reply| == masterReplOffset + 1 - offset && reply == window[|window| - |reply|..]
    {
      HoldsIndex(replBacklog[..], replBacklogIdx, window);
      hide Holds, Slot;
      if replBacklogHistlen == 0 { return []; }
      var skip := offset - replBacklogOff;
      var j := Seek(replBacklogIdx, replBacklogSize, replBacklogHistlen, skip);
      reply := ReadRing(replBacklog, replBacklogIdx, window, j, replBacklogHistlen - skip);
    }
  }

  /** The last len bytes, in at most two pieces; j is where they start. */
  method ReadRing(buf: array<u8>, ghost idx: nat, ghost s: bytes, j0: nat, len0: nat) returns (reply: bytes)
    requires Holds(buf[..], idx, s) && idx < buf.Length && len0 <= |s| <= buf.Length
    requires len0 > 0 ==> j0 < buf.Length && j0 == Slot(idx, buf.Length, len0)
    ensures reply == s[|s| - len0..]
  {
    hide Holds, Slot;
    reply := [];
    var j, len := j0, len0;
    while len > 0
      invariant 0 <= len <= len0 && reply == s[|s| - len0..|s| - len]
      invariant len > 0 ==> 0 <= j < buf.Length && j == Slot(idx, buf.Length, len)
      decreases len
    {
      var thislen := if buf.Length - j < len then buf.Length - j else len;
      ReadChunk(buf[..], idx, s, len, thislen);
      Extend(s, |s| - len0, |s| - len, thislen);
      reply := reply + buf[j..j + thislen];
      len := len - thislen;
      j := 0;
    }
  }

  lemma TailIs(s: bytes, n: nat)
    ensures Tail(s, n) == if |s| <= n then s else s[|s| - n..]
  {}

  lemma HoldsIndex(buf: seq<u8>, idx: nat, s: bytes)
    requires Holds(buf, idx, s)
    ensures idx < |buf|
  {}

  /** The bytes fed so far are a prefix of p0. */
  lemma NextChunk(p0: bytes, p: bytes, t: nat, w: bytes, s: bytes)
    requires |p| <= |p0| && p == p0[|p0| - |p|..] && t <= |p| && s == w + p0[..|p0| - |p|]
    ensures p[t..] == p0[|p0| - |p[t..]|..] && s + p[..t] == w + p0[..|p0| - |p[t..]|]
  {}

  lemma FeedDone(w: bytes, p0: bytes, s: bytes, p: bytes)
    requires |p| == 0 && s == w + p0[..|p0| - |p|]
    ensures s == w + p0
  {}

  lemma Extend(s: bytes, i: nat, j: nat, t: nat)
    requires i <= j && j + t <= |s|
    ensures s[i..j] + s[j..j + t] == s[i..j + t]
  {}

  /** The index of the first byte to send: skip bytes after the oldest one. */
  method Seek(idx: nat, size: nat, histlen: nat, skip: int) returns (j: nat)
    requires idx < size && 1 <= histlen <= size && 0 <= skip <= histlen
    ensures j < size && (skip < histlen ==> j == Slot(idx, size, histlen - skip))
  {
    j := (idx + (size - histlen)) % size;
    ModOnce(idx + (size - histlen), size);
    ModOnce(j + skip, size);
    j := (j + skip) % size;
  }

  lemma ModOnce(x: nat, n: nat)
    requires 0 < n && x < 2 * n
    ensures x % n == if x < n then x else x - n
  {}

  /** A contiguous piece of the ring is a piece of the stream. */
  lemma ReadChunk(buf: seq<u8>, idx: nat, s: bytes, len: nat, t: nat)
    requires Holds(buf, idx, s) && 1 <= t <= len <= |s| <= |buf| && Slot(idx, |buf|, len) + t <= |buf|
    requires t == len || Slot(idx, |buf|, len) + t == |buf|
    ensures buf[Slot(idx, |buf|, len)..Slot(idx, |buf|, len) + t] == s[|s| - len..|s| - len + t]
    ensures t < len ==> Slot(idx, |buf|, len - t) == 0
  {
    var j := Slot(idx, |buf|, len);
    var x, y := buf[j..j + t], s[|s| - len..|s| - len + t];
    forall k | 0 <= k < t
      ensures x[k] == y[k]
    {
      assert Slot(idx, |buf|, len - k) == j + k;
    }
    assert x == y;
  }

  method Copy(buf: array<u8>, idx: nat, chunk: bytes, ghost s: bytes)
    requires Holds(buf[..], idx, s) && idx + |chunk| <= buf.Length
    modifies buf
    ensures Holds(buf[..], if idx + |chunk| == buf.Length then 0 else idx + |chunk|, s + chunk)
  {
    ghost var before := buf[..];
    forall k | 0 <= k < |chunk| {
      buf[idx + k] := chunk[k];
    }
    FeedChunk(before, buf[..], idx, s, chunk);
  }
}
