// Partial resynchronization (replication.c) as a step protocol of one master
// and any number of replicas, without role changes.
module Psync {
  import opened Bytes
  import opened Sequences
  import opened Options
  import opened Backlog

  /** The writes a replica has applied and the offset it counts for them. */
  datatype Copy = Copy(hist: bytes, reploff: nat)

  /** A replica seen from the master; pending is its output buffer.  A loading
      replica is to receive the snapshot first and then what is pending. */
  datatype Link = Down | WaitStart | Loading(snapshot: Copy, pending: bytes) | Online(pending: bytes)

  datatype Replica = Replica(copy: Option<Copy>, link: Link)

  /** hist is everything ever written, counted by the offset or not. */
  datatype System = System(log: Log, hist: bytes, replicas: seq<Replica>)

  datatype Event =
    | Write(data: bytes)
    | Sync(i: nat, now: bool)
    | StartBgsave
    | Attach(i: nat, other: nat)
    | Psync(i: nat)
    | Deliver(i: nat, n: nat)
    | Loaded(i: nat)
    | Drop(i: nat, heard: bool)
    | FreeBacklog
    | Resize(newsize: int)

  // ------------------------------------------------------------------- steps

  predicate NoSlaves(rs: seq<Replica>) {
    forall i :: 0 <= i < |rs| ==> rs[i].link == Down
  }

  /** replicationFeedSlaves leaves out replicas that wait for a BGSAVE. */
  function FedReplica(r: Replica, data: bytes): Replica {
    match r.link
    case Loading(s, p) => r.(link := Loading(s, p + data))
    case Online(p) => r.(link := Online(p + data))
    case _ => r
  }

  /** startBgsaveForReplication sets up every replica that waits for it. */
  function StartedReplica(r: Replica, snapshot: Copy): Replica {
    if r.link == WaitStart then r.(link := Loading(snapshot, [])) else r
  }

  function AllFed(rs: seq<Replica>, data: bytes): seq<Replica> {
    seq(|rs|, i requires 0 <= i < |rs| => FedReplica(rs[i], data))
  }

  function AllStarted(rs: seq<Replica>, snapshot: Copy): seq<Replica> {
    seq(|rs|, i requires 0 <= i < |rs| => StartedReplica(rs[i], snapshot))
  }

  predicate Enabled(s: System, e: Event) {
    match e
    case Write(_) => s.log.window.Some? || NoSlaves(s.replicas)
    case Sync(i, _) => i < |s.replicas| && s.replicas[i].link == Down
    case StartBgsave => true
    case Attach(i, j) => i < |s.replicas| && j < |s.replicas| && s.replicas[i].link == Down && s.replicas[j].link.Loading?
    case Psync(i) => i < |s.replicas| && s.replicas[i].link == Down && s.replicas[i].copy.Some?
                     && Accepts(s.log, s.replicas[i].copy.value.reploff + 1)
    case Deliver(i, n) => i < |s.replicas| && s.replicas[i].link.Online? && n <= |s.replicas[i].link.pending|
                          && s.replicas[i].copy.Some?
    case Loaded(i) => i < |s.replicas| && s.replicas[i].link.Loading?
    case Drop(i, _) => i < |s.replicas|
    case FreeBacklog => s.log.window.Some? && NoSlaves(s.replicas)
    case Resize(_) => true
  }

  function Apply(s: System, e: Event): System
    requires Enabled(s, e)
  {
    match e
    case Write(data) =>
      if s.log.window.None? then s.(hist := s.hist + data)
      else System(Fed(s.log, data), s.hist + data, AllFed(s.replicas, data))
    case Sync(i, now) =>
      // The BGSAVE may start at once, before the backlog of a first replica is created.
      var rs := s.replicas[i := s.replicas[i].(link := WaitStart)];
      s.(log := if s.log.window.None? then Created(s.log) else s.log,
         replicas := if now then AllStarted(rs, Copy(s.hist, InitialOffset(s.log))) else rs)
    case StartBgsave => s.(replicas := AllStarted(s.replicas, Copy(s.hist, InitialOffset(s.log))))
    case Attach(i, j) => s.(replicas := s.replicas[i := s.replicas[i].(link := s.replicas[j].link)])
    case Psync(i) =>
      var r := s.replicas[i];
      s.(replicas := s.replicas[i := r.(link := Online(Sent(s.log, r.copy.value.reploff + 1)))])
    case Deliver(i, n) =>
      var r := s.replicas[i];
      var c := r.copy.value;
      s.(replicas := s.replicas[i := Replica(Some(Copy(c.hist + r.link.pending[..n], c.reploff + n)), Online(r.link.pending[n..]))])
    case Loaded(i) =>
      var r := s.replicas[i];
      s.(replicas := s.replicas[i := Replica(Some(r.link.snapshot), Online(r.link.pending))])
    case Drop(i, heard) =>
      // A replica that has heard of its full resync has discarded its old copy.
      var r := s.replicas[i];
      s.(replicas := s.replicas[i := Replica(if r.link.Loading? && heard then None else r.copy, Down)])
    case FreeBacklog => s.(log := Freed(s.log))
    case Resize(newsize) => s.(log := Resized(s.log, newsize))
  }

  // --------------------------------------------------------------- invariant

  ghost predicate LogOk(l: Log, hist: bytes) {
    l.Ok() && (l.window.Some? ==> |l.window.value| <= |hist| && l.window.value == hist[|hist| - |l.window.value|..])
  }

  /** What an offset is worth: one the backlog reaches back to marks the place
      in the full history where the copy ends. */
  ghost predicate CopyOk(l: Log, hist: bytes, c: Copy) {
    && c.reploff <= l.offset
    && (l.window.Some? && c.reploff >= l.offset - |l.window.value| ==>
          l.offset - c.reploff <= |hist| && c.hist == hist[..|hist| - (l.offset - c.reploff)])
  }

  /** Copy and pending bytes together are the whole history. */
  ghost predicate UpToDate(l: Log, hist: bytes, c: Copy, pending: bytes) {
    c.reploff + |pending| == l.offset && c.hist + pending == hist
  }

  ghost predicate ReplicaOk(l: Log, hist: bytes, r: Replica) {
    && (r.copy.Some? ==> CopyOk(l, hist, r.copy.value))
    && (r.link != Down ==> l.window.Some?)
    && (r.link.Loading? ==> UpToDate(l, hist, r.link.snapshot, r.link.pending))
    && (r.link.Online? ==> r.copy.Some? && UpToDate(l, hist, r.copy.value, r.link.pending))
  }

  ghost predicate Inv(s: System) {
    LogOk(s.log, s.hist) && forall i :: 0 <= i < |s.replicas| ==> ReplicaOk(s.log, s.hist, s.replicas[i])
  }

  lemma UpToDateIsOk(l: Log, hist: bytes, c: Copy, p: bytes)
    requires UpToDate(l, hist, c, p)
    ensures CopyOk(l, hist, c)
  {
    assert hist[..|hist| - |p|] == c.hist;
  }

  lemma TailIsSuffix(hist: bytes, w: bytes, data: bytes, n: nat)
    requires |w| <= |hist| && w == hist[|hist| - |w|..]
    ensures var t := Tail(w + data, n);
            |t| <= |hist + data| && t == (hist + data)[|hist + data| - |t|..]
  {
    assert (hist + data)[|hist| - |w|..] == w + data;
  }

  lemma FeedLog(l: Log, hist: bytes, data: bytes)
    requires LogOk(l, hist) && l.window.Some?
    ensures LogOk(Fed(l, data), hist + data)
  {
    TailIsSuffix(hist, l.window.value, data, l.size);
    hide Tail;
  }

  lemma FeedCopy(l: Log, hist: bytes, c: Copy, data: bytes)
    requires LogOk(l, hist) && l.window.Some? && CopyOk(l, hist, c)
    ensures CopyOk(Fed(l, data), hist + data, c)
  {
    if c.reploff >= l.offset - |l.window.value| {
      var k := |hist| - (l.offset - c.reploff);
      assert (hist + data)[..k] == hist[..k];
    }
  }

  lemma FeedReplicaOk(l: Log, hist: bytes, r: Replica, data: bytes)
    requires LogOk(l, hist) && l.window.Some? && ReplicaOk(l, hist, r)
    ensures ReplicaOk(Fed(l, data), hist + data, FedReplica(r, data))
  {
    if r.copy.Some? { FeedCopy(l, hist, r.copy.value, data); }
    hide CopyOk;
    match r.link
    case Loading(s, p) => Assoc(s.hist, p, data);
    case Online(p) => Assoc(r.copy.value.hist, p, data);
    case _ =>
  }

  lemma WriteKeeps(s: System, data: bytes)
    requires Inv(s) && Enabled(s, Write(data))
    ensures Inv(Apply(s, Write(data)))
  {
    if s.log.window.Some? {
      FeedLog(s.log, s.hist, data);
      hide LogOk, ReplicaOk, FedReplica, Fed;
      forall i | 0 <= i < |s.replicas|
        ensures ReplicaOk(Fed(s.log, data), s.hist + data, FedReplica(s.replicas[i], data))
      {
        FeedReplicaOk(s.log, s.hist, s.replicas[i], data);
      }
    }
  }

  /** A new backlog is beyond the offset of every copy. */
  lemma CreateCopy(l: Log, hist: bytes, c: Copy)
    requires LogOk(l, hist) && l.window.None? && CopyOk(l, hist, c)
    ensures LogOk(Created(l), hist) && CopyOk(Created(l), hist, c)
  {}

  lemma ResizeCopy(l: Log, hist: bytes, c: Copy, newsize: int)
    requires CopyOk(l, hist, c)
    ensures CopyOk(Resized(l, newsize), hist, c)
  {}

  lemma StartedOk(l: Log, hist: bytes, r: Replica)
    requires ReplicaOk(l, hist, r) && l.window.Some?
    ensures ReplicaOk(l, hist, StartedReplica(r, Copy(hist, l.offset)))
  {
    hide CopyOk;
  }

  lemma StartKeeps(s: System)
    requires Inv(s) && s.log.window.Some?
    ensures Inv(s.(replicas := AllStarted(s.replicas, Copy(s.hist, s.log.offset))))
  {
    hide LogOk, ReplicaOk, StartedReplica;
    forall i | 0 <= i < |s.replicas|
      ensures ReplicaOk(s.log, s.hist, StartedReplica(s.replicas[i], Copy(s.hist, s.log.offset)))
    {
      StartedOk(s.log, s.hist, s.replicas[i]);
    }
  }

  /** Without a backlog nobody waits, so starting a BGSAVE sets up nobody. */
  lemma StartNobody(s: System, snapshot: Copy)
    requires Inv(s) && s.log.window.None?
    ensures AllStarted(s.replicas, snapshot) == s.replicas
  {
    forall i | 0 <= i < |s.replicas|
      ensures AllStarted(s.replicas, snapshot)[i] == s.replicas[i]
    {
      assert ReplicaOk(s.log, s.hist, s.replicas[i]);
    }
  }

  lemma CreateKeeps(s: System)
    requires Inv(s) && s.log.window.None?
    ensures Inv(s.(log := Created(s.log)))
  {
    forall i | 0 <= i < |s.replicas|
      ensures ReplicaOk(Created(s.log), s.hist, s.replicas[i])
    {
      assert ReplicaOk(s.log, s.hist, s.replicas[i]);
      if s.replicas[i].copy.Some? { CreateCopy(s.log, s.hist, s.replicas[i].copy.value); }
    }
  }

  lemma SyncKeeps(s: System, i: nat, now: bool)
    requires Inv(s) && Enabled(s, Sync(i, now))
    ensures Inv(Apply(s, Sync(i, now)))
  {
    var t := s.(log := if s.log.window.None? then Created(s.log) else s.log);
    if s.log.window.None? { CreateKeeps(s); }
    var u := t.(replicas := s.replicas[i := s.replicas[i].(link := WaitStart)]);
    assert ReplicaOk(t.log, t.hist, s.replicas[i]);
    assert Inv(u);
    if now { StartKeeps(u); }
  }

  lemma PsyncKeeps(s: System, i: nat)
    requires Inv(s) && Enabled(s, Psync(i))
    ensures Inv(Apply(s, Psync(i)))
  {
    assert ReplicaOk(s.log, s.hist, s.replicas[i]);
    SentCompletes(s.log, s.hist, s.replicas[i].copy.value);
    hide CopyOk, LogOk, Sent, Accepts;
  }

  /** The bytes sent on acceptance are what is missing. */
  lemma SentCompletes(l: Log, hist: bytes, c: Copy)
    requires LogOk(l, hist) && CopyOk(l, hist, c) && Accepts(l, c.reploff + 1)
    ensures c.hist + Sent(l, c.reploff + 1) == hist && c.reploff + |Sent(l, c.reploff + 1)| == l.offset
  {
    var w := l.window.value;
    var k := c.reploff + 1 - l.First();
    assert w[k..] == hist[|hist| - |w| + k..];
  }

  lemma DeliverKeeps(s: System, i: nat, n: nat)
    requires Inv(s) && Enabled(s, Deliver(i, n))
    ensures Inv(Apply(s, Deliver(i, n)))
  {
    var r := s.replicas[i];
    assert ReplicaOk(s.log, s.hist, r);
    var c, p := r.copy.value, r.link.pending;
    var d := Copy(c.hist + p[..n], c.reploff + n);
    assert d.hist + p[n..] == c.hist + p;
    UpToDateIsOk(s.log, s.hist, d, p[n..]);
    hide CopyOk, LogOk;
  }

  lemma LoadedKeeps(s: System, i: nat)
    requires Inv(s) && Enabled(s, Loaded(i))
    ensures Inv(Apply(s, Loaded(i)))
  {
    assert ReplicaOk(s.log, s.hist, s.replicas[i]);
    UpToDateIsOk(s.log, s.hist, s.replicas[i].link.snapshot, s.replicas[i].link.pending);
    hide CopyOk, LogOk;
  }

  lemma LinkKeeps(s: System, i: nat, r: Replica)
    requires Inv(s) && i < |s.replicas| && ReplicaOk(s.log, s.hist, r)
    ensures Inv(s.(replicas := s.replicas[i := r]))
  {}

  lemma FreeKeeps(s: System)
    requires Inv(s) && Enabled(s, FreeBacklog)
    ensures Inv(Apply(s, FreeBacklog))
  {
    forall i | 0 <= i < |s.replicas|
      ensures ReplicaOk(Freed(s.log), s.hist, s.replicas[i])
    {
      assert ReplicaOk(s.log, s.hist, s.replicas[i]);
    }
  }

  lemma ResizeKeeps(s: System, newsize: int)
    requires Inv(s)
    ensures Inv(s.(log := Resized(s.log, newsize)))
  {
    forall i | 0 <= i < |s.replicas|
      ensures ReplicaOk(Resized(s.log, newsize), s.hist, s.replicas[i])
    {
      assert ReplicaOk(s.log, s.hist, s.replicas[i]);
      if s.replicas[i].copy.Some? { ResizeCopy(s.log, s.hist, s.replicas[i].copy.value, newsize); }
    }
  }

  lemma StepKeeps(s: System, e: Event)
    requires Inv(s) && Enabled(s, e)
    ensures Inv(Apply(s, e))
  {
    match e
    case Write(data) => WriteKeeps(s, data);
    case Sync(i, now) => SyncKeeps(s, i, now);
    case StartBgsave => if s.log.window.Some? { StartKeeps(s); } else { StartNobody(s, Copy(s.hist, InitialOffset(s.log))); }
    case Attach(i, j) =>
      assert ReplicaOk(s.log, s.hist, s.replicas[i]) && ReplicaOk(s.log, s.hist, s.replicas[j]);
      LinkKeeps(s, i, s.replicas[i].(link := s.replicas[j].link));
    case Psync(i) => PsyncKeeps(s, i);
    case Deliver(i, n) => DeliverKeeps(s, i, n);
    case Loaded(i) => LoadedKeeps(s, i);
    case Drop(i, heard) =>
      var r := s.replicas[i];
      assert ReplicaOk(s.log, s.hist, r);
      LinkKeeps(s, i, Replica(if r.link.Loading? && heard then None else r.copy, Down));
    case FreeBacklog => FreeKeeps(s);
    case Resize(newsize) => ResizeKeeps(s, newsize);
  }

  // -------------------------------------------------------------------- runs

  ghost predicate Initial(s: System) {
    && s.log.offset == 0 && s.log.size > 0 && s.log.window.None? && s.hist == []
    && forall i :: 0 <= i < |s.replicas| ==> s.replicas[i] == Replica(None, Down)
  }

  /** The state after the events, when each one is possible in turn. */
  ghost predicate Run(s: System, es: seq<Event>, t: System)
    decreases |es|
  {
    if es == [] then s == t else Enabled(s, es[0]) && Run(Apply(s, es[0]), es[1..], t)
  }

  lemma {:induction false} RunKeeps(s: System, es: seq<Event>, t: System)
    requires Inv(s) && Run(s, es, t)
    ensures Inv(t)
    decreases |es|
  {
    hide Inv, Enabled, Apply;
    if es != [] {
      StepKeeps(s, es[0]);
      RunKeeps(Apply(s, es[0]), es[1..], t);
    }
  }

  /** In every state of every run: a request for the next offset of any replica
      that passes the accept test is answered with exactly the missing part of
      the full history, and no connected replica misses anything. */
  lemma PartialResyncIsSound(s: System, es: seq<Event>, t: System, i: nat)
    requires Initial(s) && Run(s, es, t) && i < |t.replicas| && t.replicas[i].copy.Some?
    ensures var c := t.replicas[i].copy.value;
            && (Accepts(t.log, c.reploff + 1) ==> c.hist + Sent(t.log, c.reploff + 1) == t.hist)
            && (t.replicas[i].link.Online? ==> c.hist + t.replicas[i].link.pending == t.hist)
  {
    RunKeeps(s, es, t);
    assert ReplicaOk(t.log, t.hist, t.replicas[i]);
    var c := t.replicas[i].copy.value;
    if Accepts(t.log, c.reploff + 1) { SentCompletes(t.log, t.hist, c); }
  }

  lemma {:induction false} RunOn(s: System, es: seq<Event>, t: System, e: Event)
    requires Run(s, es, t) && Enabled(t, e)
    ensures Run(s, es + [e], Apply(t, e))
    decreases |es|
  {
    hide Enabled, Apply;
    if es == [] {
      assert [e][1..] == [] && es + [e] == [e];
    } else {
      RunOn(Apply(s, es[0]), es[1..], t, e);
      assert (es + [e])[1..] == es[1..] + [e];
    }
  }

  /** In every state a replica is let in to continue if and only if it has a copy
      and no connection and the backlog holds the bytes from its offset on, which
      may be none. */
  lemma LetInIff(t: System, i: nat)
    requires i < |t.replicas|
    ensures Enabled(t, Psync(i)) <==>
            && t.replicas[i].link == Down && t.replicas[i].copy.Some? && t.log.window.Some?
            && 0 <= t.log.offset - t.replicas[i].copy.value.reploff <= |t.log.window.value|
  {}

  /** The master can write in every state of every run: while any replica is
      connected, there is a backlog to feed. */
  lemma CanWrite(s: System, es: seq<Event>, t: System, data: bytes)
    requires Initial(s) && Run(s, es, t)
    ensures Enabled(t, Write(data)) && Apply(t, Write(data)).hist == t.hist + data
    ensures t.log.window.Some? ==> Apply(t, Write(data)).log.offset == t.log.offset + |data|
  {
    RunKeeps(s, es, t);
    hide Run, Initial;
    if t.log.window.None? {
      forall i | 0 <= i < |t.replicas|
        ensures t.replicas[i].link == Down
      {
        assert ReplicaOk(t.log, t.hist, t.replicas[i]);
      }
    }
  }

  /** Such a replica has the whole history as soon as it is let in and the bytes
      it misses are delivered, and these are as many as its offset is behind. */
  lemma ContinuedIsComplete(s: System, es: seq<Event>, t: System, i: nat) returns (u: System)
    requires Initial(s) && Run(s, es, t) && i < |t.replicas|
    requires t.replicas[i].link == Down && t.replicas[i].copy.Some? && t.log.window.Some?
    requires 0 <= t.log.offset - t.replicas[i].copy.value.reploff <= |t.log.window.value|
    ensures Run(t, [Psync(i), Deliver(i, t.log.offset - t.replicas[i].copy.value.reploff)], u)
    ensures u == t.(replicas := t.replicas[i := Replica(Some(Copy(t.hist, t.log.offset)), Online([]))])
  {
    LetInIff(t, i);
    RunKeeps(s, es, t);
    var c := t.replicas[i].copy.value;
    assert ReplicaOk(t.log, t.hist, t.replicas[i]);
    SentCompletes(t.log, t.hist, c);
    var missing := Sent(t.log, c.reploff + 1);
    var t1 := Apply(t, Psync(i));
    var e: Event := Deliver(i, |missing|);
    assert missing[..|missing|] == missing && missing[|missing|..] == [];
    assert Enabled(t1, e);
    u := Apply(t1, e);
    hide Sent, Accepts, Inv, Enabled, Apply;
    assert t1.replicas[i := u.replicas[i]] == t.replicas[i := u.replicas[i]];
    RunOn(t, [], t, Psync(i));
    RunOn(t, [Psync(i)], t1, e);
    assert [] + [Psync(i)] == [Psync(i)] && [Psync(i)] + [e] == [Psync(i), e];
  }

  /** Any replica can be brought to the whole history from every state of every
      run, by a full resynchronization. */
  lemma FullResyncCompletes(s: System, es: seq<Event>, t: System, i: nat) returns (u: System)
    requires Initial(s) && Run(s, es, t) && i < |t.replicas|
    ensures Run(t, [Drop(i, true), Sync(i, true), Loaded(i)], u)
    ensures u.hist == t.hist && |u.replicas| == |t.replicas| && u.log.window.Some?
    ensures u.replicas[i] == Replica(Some(Copy(t.hist, u.log.offset)), Online([]))
  {
    RunKeeps(s, es, t);
    var a, b, c: Event := Drop(i, true), Sync(i, true), Loaded(i);
    var t1 := Apply(t, a);
    var t2 := Apply(t1, b);
    assert t2.replicas[i].link == Loading(Copy(t.hist, InitialOffset(t1.log)), []);
    u := Apply(t2, c);
    assert Enabled(t, a) && Enabled(t1, b) && Enabled(t2, c);
    hide Inv, Enabled, Apply, Initial;
    RunOn(t, [], t, a);
    RunOn(t, [a], t1, b);
    RunOn(t, [a, b], t2, c);
    assert [] + [a] == [a] && [a] + [b] == [a, b] && [a, b] + [c] == [a, b, c];
  }

  /** A replica may share the snapshot of another one if and only if it has no
      connection and the other one is still to load its own; with the snapshot and
      what is pending for the other one it has the whole history as well. */
  lemma SharedSnapshotCompletes(s: System, es: seq<Event>, t: System, i: nat, j: nat) returns (u: System)
    requires Initial(s) && Run(s, es, t)
    ensures Enabled(t, Attach(i, j)) <==>
              i < |t.replicas| && j < |t.replicas| && t.replicas[i].link == Down && t.replicas[j].link.Loading?
    ensures Enabled(t, Attach(i, j)) ==>
              && Run(t, [Attach(i, j), Loaded(i), Deliver(i, |t.replicas[j].link.pending|)], u)
              && u == t.(replicas := t.replicas[i := Replica(Some(Copy(t.hist, t.log.offset)), Online([]))])
  {
    u := t;
    if Enabled(t, Attach(i, j)) {
      RunKeeps(s, es, t);
      assert ReplicaOk(t.log, t.hist, t.replicas[j]);
      var from := t.replicas[j].link;
      var a, b, c: Event := Attach(i, j), Loaded(i), Deliver(i, |from.pending|);
      var t1 := Apply(t, a);
      var t2 := Apply(t1, b);
      assert from.pending[..|from.pending|] == from.pending && from.pending[|from.pending|..] == [];
      u := Apply(t2, c);
      assert Enabled(t1, b) && Enabled(t2, c);
      hide Inv, Enabled, Apply, Initial, Accepts;
      assert u.replicas == t.replicas[i := u.replicas[i]];
      RunOn(t, [], t, a);
      RunOn(t, [a], t1, b);
      RunOn(t, [a, b], t2, c);
      assert [] + [a] == [a] && [a] + [b] == [a, b] && [a, b] + [c] == [a, b, c];
    }
  }

  /** A replica leaves, the backlog is freed and the master writes on: the
      copy is stale although its offset is the master's. */
  lemma StaleCopy(data: bytes) returns (s: System, es: seq<Event>, t: System)
    requires data != []
    ensures Initial(s) && Run(s, es, t) && |t.replicas| == 1 && t.log.window.None? && t.replicas[0].copy.Some?
    ensures t.replicas[0].copy.value.reploff == t.log.offset && t.replicas[0].copy.value.hist != t.hist
  {
    s := System(Log(0, CONFIG_REPL_BACKLOG_MIN_SIZE, None), [], [Replica(None, Down)]);
    es := [Sync(0, true), Loaded(0), Drop(0, false), FreeBacklog, Write(data)];
    var s1 := Apply(s, es[0]);
    var s2 := Apply(s1, es[1]);
    var s3 := Apply(s2, es[2]);
    var s4 := Apply(s3, es[3]);
    t := Apply(s4, es[4]);
    assert Run(t, [], t);
    assert Run(s4, [es[4]], t);
    assert Run(s3, [es[3], es[4]], t);
    assert Run(s2, [es[2], es[3], es[4]], t);
    assert Run(s1, [es[1], es[2], es[3], es[4]], t);
    assert es[1..] == [es[1], es[2], es[3], es[4]];
  }

  /** For such a copy the offset bump at creation is what refuses the request;
      without it an empty answer would be sent. */
  lemma BumpIsNeeded(l: Log, c: Copy)
    requires l.window.None? && c.reploff == l.offset
    ensures !Accepts(Created(l), c.reploff + 1)
    ensures Accepts(l.(window := Some([])), c.reploff + 1) && Sent(l.(window := Some([])), c.reploff + 1) == []
  {}
}
