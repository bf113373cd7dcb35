// Reading requests (networking.c): the query buffer of a client and its
// incremental multibulk parser.
module Resp {
  import opened Bytes
  import opened Sequences
  import opened Util
  import opened RespFormat
  import opened RespSpelling

  const PROTO_INLINE_MAX_SIZE: nat := 65536
  const PROTO_MBULK_BIG_ARG: nat := 32768
  const PROTO_IOBUF_LEN: nat := 16384
  const PROTO_MAX_QUERYBUF_LEN: nat := 0x4000_0000

  datatype Status = Wait | Fail | Empty | Go

  datatype ReqType = Unknown | Inline | Multibulk

  /** Who writes to the socket: anyone, or the printer, with the bytes not read
      yet and the commands not dispatched yet. */
  datatype Peer = Anyone | Printer(unread: bytes, todo: seq<Command>)

  /** What is still to come of the arguments args when the length of the first
      one is known (b) or not (-1). */
  function Rest(b: int, args: seq<bytes>): bytes {
    if b == -1 || args == [] then PrintArgs(args) else args[0] + [CR, LF] + PrintArgs(args[1..])
  }

  /** The buffer is short, or a big argument starts it and ends it. */
  ghost predicate Room(buf: bytes, pos: nat, b: int) {
    |buf| <= PROTO_INLINE_MAX_SIZE || (pos == 0 && b >= PROTO_MBULK_BIG_ARG && |buf| <= b + 2)
  }

  ghost predicate AllAllowed(cmds: seq<Command>) {
    forall i :: 0 <= i < |cmds| ==> Allowed(cmds[i])
  }

  /** Inside a command: argv is read, m arguments are to come. */
  ghost predicate InCommand(buf: bytes, pos: nat, m: nat, b: int, argv: seq<bytes>, peer: Peer) {
    && pos <= |buf| && (b == -1 || (0 <= b <= MAX_BULK && m > 0))
    && (peer.Printer? ==>
      && peer.todo != [] && AllAllowed(peer.todo) && Room(buf, pos, b)
      && |argv| + m == |peer.todo[0]| && argv == peer.todo[0][..|argv|]
      && buf[pos..] + peer.unread == Rest(b, peer.todo[0][|argv|..]) + PrintAll(peer.todo[1..])
      && (b != -1 ==> b == |peer.todo[0][|argv|]|))
  }

  /** Between commands. */
  ghost predicate Between(buf: bytes, peer: Peer) {
    peer.Printer? ==> AllAllowed(peer.todo) && |buf| <= PROTO_INLINE_MAX_SIZE && buf + peer.unread == PrintAll(peer.todo)
  }

  /** The current command cannot be finished from what has been read. */
  ghost predicate Starved(buf: bytes, pos: nat, b: int, peer: Peer) {
    peer.Printer? ==>
      && peer.todo != [] && |peer.unread| > |PrintAll(peer.todo[1..])|
      && |buf| - pos < if b == -1 then 13 else b + 2
  }

  // ------------------------------------------------------------ header lines

  /** The line at pos has arrived: its CR is at i, and one more byte is there. */
  ghost predicate Line(buf: bytes, pos: nat, i: nat) {
    Scanned(buf, pos, CR, true, i) && i + 2 <= |buf|
  }

  ghost predicate TooLong(buf: bytes, pos: nat) {
    |buf| > PROTO_INLINE_MAX_SIZE && exists i :: Scanned(buf, pos, CR, false, i)
  }

  /** The line at pos is the marker c and the text of v. */
  ghost predicate Number(buf: bytes, pos: nat, i: nat, c: u8, v: int) {
    Line(buf, pos, i) && pos < i && buf[pos] == c && IsI64(v) && buf[pos + 1..i] == Text(v)
  }

  /** No number in lo..hi can be read at pos, however much more arrives. */
  ghost predicate BadLine(buf: bytes, pos: nat, c: u8, lo: int, hi: int) {
    TooLong(buf, pos) || exists i :: Line(buf, pos, i) && forall v :: lo <= v <= hi ==> !Number(buf, pos, i, c, v)
  }

  lemma ScannedOnce(buf: bytes, pos: nat, c: u8, f: bool, i: nat, g: bool, j: nat)
    requires c != 0 && Scanned(buf, pos, c, f, i) && Scanned(buf, pos, c, g, j)
    ensures f == g && i == j
  {}

  lemma Unended(buf: bytes, pos: nat, c: u8, lo: int, hi: int, found: bool, i: nat)
    requires Scanned(buf, pos, CR, found, i) && (found ==> i + 2 > |buf|)
    ensures forall j :: !Line(buf, pos, j)
    ensures TooLong(buf, pos) <==> !found && |buf| > PROTO_INLINE_MAX_SIZE
    ensures BadLine(buf, pos, c, lo, hi) <==> TooLong(buf, pos)
  {
    forall g, j | Scanned(buf, pos, CR, g, j) ensures g == found && j == i { ScannedOnce(buf, pos, CR, g, j, found, i); }
    hide Scanned;
  }

  lemma Ended(buf: bytes, pos: nat, c: u8, lo: int, hi: int, i: nat)
    requires Line(buf, pos, i)
    ensures !TooLong(buf, pos) && pos <= i && i + 2 <= |buf|
    ensures BadLine(buf, pos, c, lo, hi) <==> forall v :: lo <= v <= hi ==> !Number(buf, pos, i, c, v)
  {
    forall g, j | Scanned(buf, pos, CR, g, j) ensures g && j == i { ScannedOnce(buf, pos, CR, g, j, true, i); }
    assert pos <= i;
    hide Scanned, Number;
  }

  /** The verdict on a line in plain terms: over 64 KB with no CR in sight, or an
      ended line that is not the marker and a number in range. */
  lemma BadLineMeans(buf: bytes, pos: nat, c: u8, lo: int, hi: int)
    requires pos <= |buf|
    ensures BadLine(buf, pos, c, lo, hi) <==>
              || (|buf| > 65536 && forall i :: pos <= i < |buf| && buf[i] == 13 ==> 0 in buf[pos..i])
              || exists i :: pos <= i <= |buf| - 2 && buf[i] == 13 && 13 !in buf[pos..i] && 0 !in buf[pos..i] &&
                   forall v :: I64MIN <= v <= I64MAX && lo <= v <= hi ==> !(pos < i && buf[pos] == c && buf[pos + 1..i] == Text(v))
  {
    var found, i := Stops(buf, pos, CR);
    ScannedIs(buf, pos, CR, found, i);
    hide Scanned, Text;
    if found && i + 2 <= |buf| {
      LineIs(buf, pos, i);
      Ended(buf, pos, c, lo, hi, i);
      assert forall v :: Number(buf, pos, i, c, v) <==> pos < i && buf[pos] == c && IsI64(v) && buf[pos + 1..i] == Text(v);
    } else {
      Unended(buf, pos, c, lo, hi, found, i);
    }
  }

  lemma {:induction false} Stops(buf: bytes, pos: nat, c: u8) returns (found: bool, i: nat)
    requires pos <= |buf|
    ensures Scanned(buf, pos, c, found, i)
    decreases |buf| - pos
  {
    if pos == |buf| || buf[pos] == 0 || buf[pos] == c {
      found, i := pos < |buf| && buf[pos] == c, pos;
    } else {
      found, i := Stops(buf, pos + 1, c);
    }
  }

  lemma ScannedIs(buf: bytes, pos: nat, c: u8, found: bool, i: nat)
    requires Scanned(buf, pos, c, found, i) && c != 0
    ensures found ==> pos <= i < |buf| && buf[i] == c && c !in buf[pos..i] && 0 !in buf[pos..i]
    ensures found ==> forall j :: pos <= j < |buf| && buf[j] == c && c !in buf[pos..j] ==> j == i
    ensures !found ==> forall j :: pos <= j < |buf| && buf[j] == c ==> 0 in buf[pos..j]
  {
    if found {
      forall j | i < j < |buf| ensures c in buf[pos..j] { assert buf[pos..j][i - pos] == c; }
    } else {
      forall j | i < j < |buf| ensures 0 in buf[pos..j] { assert buf[pos..j][i - pos] == 0; }
    }
  }

  lemma LineIs(buf: bytes, pos: nat, i: nat)
    requires Scanned(buf, pos, CR, true, i) && i + 2 <= |buf|
    ensures Line(buf, pos, i)
  {}

  lemma BadLineIs(buf: bytes, pos: nat, c: u8, lo: int, hi: int)
    ensures TooLong(buf, pos) ==> BadLine(buf, pos, c, lo, hi)
    ensures !TooLong(buf, pos) && (forall i :: !Line(buf, pos, i)) ==> !BadLine(buf, pos, c, lo, hi)
  {}

  lemma MarkerIs(buf: bytes, pos: nat, i: nat, c: u8)
    requires Line(buf, pos, i) && pos < |buf| && buf[pos] != c
    ensures forall v :: !Number(buf, pos, i, c, v)
  {}

  lemma SliceOf(s: bytes, i: nat, j: nat, k: nat, l: nat)
    requires i <= j <= |s| && k <= l <= j - i
    ensures s[i..j][k..l] == s[i + k..i + l]
  {
    assert forall x :: 0 <= x < l - k ==> s[i..j][k..l][x] == s[i + k..i + l][x];
  }

  /** A number read is a line of the marker and its text. */
  lemma NumberLine(buf: bytes, pos: nat, i: nat, c: u8, v: int)
    requires Number(buf, pos, i, c, v)
    ensures pos <= i && i + 2 <= |buf| && HeaderLine(c, v, buf[pos..i + 2])
  {
    hide Text;
    var t := buf[pos..i + 2];
    SliceOf(buf, pos, i + 2, 1, i - pos);
  }

  /** What is read while the length of an argument is. */
  lemma LengthHead(q0: bytes, p0: nat, q1: bytes, p1: nat, ll: nat) returns (head: bytes)
    requires p0 <= |q0| && p1 <= |q1|
    requires exists i: nat :: Number(q0, p0, i, DOLLAR, ll) && i + 2 <= |q0| && q1[p1..] == q0[i + 2..]
    ensures q0[p0..] == head + q1[p1..] && Spells(-1, [], ll, head)
  {
    var i: nat :| Number(q0, p0, i, DOLLAR, ll) && i + 2 <= |q0| && q1[p1..] == q0[i + 2..];
    NumberLine(q0, p0, i, DOLLAR, ll);
    hide Number, HeaderLine, Spells;
    head := q0[p0..i + 2];
    SpellsNone(-1, ll, head);
  }

  /** What is read while the argument itself is. */
  lemma ArgumentHead(q0: bytes, p0: nat, b: nat, q1: bytes, p1: nat) returns (head: bytes)
    requires p0 + b + 2 <= |q0| && p1 <= |q1| && q1[p1..] == q0[p0 + b + 2..]
    ensures q0[p0..] == head + q1[p1..] && Spells(b, [q0[p0..p0 + b]], -1, head)
  {
    hide Spells;
    var a := [q0[p0..p0 + b]];
    head := q0[p0..p0 + b + 2];
    assert head[..b] == a[0] && head[..|head|] == head && head[|head|..] == [] && a[1..] == [];
    SpellsNone(-1, -1, []);
    SpellsSome(b, a, -1, head, |head|);
  }

  /** The next part of a request, of which the length b is known or not (-1),
      has not arrived. */
  ghost predicate Unready(buf: bytes, pos: nat, b: int) {
    if b == -1 then forall i: nat :: !Line(buf, pos, i) else |buf| - pos < b + 2
  }

  lemma LineMissing(buf: bytes, pos: nat)
    requires forall i: nat :: !Line(buf, pos, i)
    ensures Unready(buf, pos, -1)
  {}

  lemma BytesMissing(buf: bytes, pos: nat, b: nat)
    requires |buf| - pos < b + 2
    ensures Unready(buf, pos, b)
  {}

  lemma RefusedHere(n: nat, buf: bytes, pos: nat)
    requires pos <= |buf| <= n && BadLine(buf, pos, DOLLAR, 0, MAX_BULK)
    ensures Refused(n, buf[pos..])
  {
    hide BadLine;
  }

  lemma UnreadyTrim(buf: bytes, pos: nat, b: int)
    requires pos <= |buf| && Unready(buf, pos, b)
    ensures Unready(buf[pos..], 0, b)
  {
    forall i: nat | Line(buf[pos..], 0, i) ensures Line(buf, pos, pos + i) {
      assert forall j :: pos <= j < pos + i ==> buf[j] == buf[pos..][j - pos];
    }
  }

  /** No argument length can be read from rest, the end of at most n bytes. */
  ghost predicate Refused(n: nat, rest: bytes) {
    exists buf: bytes, pos: nat :: pos <= |buf| <= n && buf[pos..] == rest && BadLine(buf, pos, DOLLAR, 0, MAX_BULK)
  }

  lemma LineVerdict(buf: bytes, pos: nat, c: u8, lo: int, hi: int, i: nat, ok: bool, value: int)
    requires Line(buf, pos, i) && pos < i && buf[pos] == c
    requires (ok <==> IsIntText(buf[pos + 1..i])) && (ok ==> IsI64(value) && Text(value) == buf[pos + 1..i])
    ensures BadLine(buf, pos, c, lo, hi) <==> !ok || !(lo <= value <= hi)
    ensures ok ==> Number(buf, pos, i, c, value)
  {
    Ended(buf, pos, c, lo, hi, i);
    forall v | Number(buf, pos, i, c, v) ensures ok && v == value {
      assert IsIntText(buf[pos + 1..i]);
      TextInjective(v, value);
    }
    hide Line, BadLine, Text;
    if ok { assert Number(buf, pos, i, c, value); }
  }

  // ------------------------------------------------------------ proof of steps

  lemma ArgHeader(args: seq<bytes>, rest: bytes)
    requires args != []
    ensures PrintArgs(args) + rest == Header(DOLLAR, |args[0]|) + (Rest(|args[0]|, args) + rest)
    ensures |Rest(|args[0]|, args) + rest| >= |rest|
  {
    var h, a, t := Header(DOLLAR, |args[0]|), args[0] + [CR, LF], PrintArgs(args[1..]);
    hide Header, PrintArgs;
    assert (h + a) + t + rest == h + ((a + t) + rest);
  }

  /** Taking one argument of length b off the front. */
  lemma ArgTaken(buf: bytes, pos: nat, b: nat, args: seq<bytes>, unread: bytes, rest: bytes)
    requires pos <= |buf| && args != [] && b == |args[0]| && buf[pos..] + unread == Rest(b, args) + rest
    ensures |buf| - pos < b + 2 ==> |unread| > |rest|
    ensures |buf| - pos >= b + 2 ==>
      buf[pos..pos + b] == args[0] && buf[pos + b + 2..] + unread == Rest(-1, args[1..]) + rest
  {
    var s := buf[pos..] + unread;
    var t := PrintArgs(args[1..]);
    hide PrintArgs;
    assert s == args[0] + ([CR, LF] + t + rest);
    assert s[b + 2..] == t + rest;
    if |buf| - pos >= b + 2 {
      assert s[..b] == buf[pos..pos + b];
      assert s[b + 2..] == buf[pos + b + 2..] + unread;
    }
  }

  lemma TailArgs(cmd: Command, k: nat)
    requires k < |cmd|
    ensures cmd[k..][0] == cmd[k] && cmd[k..][1..] == cmd[k + 1..] && cmd[..k] + [cmd[k]] == cmd[..k + 1]
  {}

  /** The line at pos holds the length of the next argument. */
  ghost predicate LineAt(buf: bytes, pos: nat, argv: seq<bytes>, peer: Peer, i: nat)
    requires peer.Printer?
  {
    && peer.todo != [] && |argv| < |peer.todo[0]| && pos < i && i + 2 <= |buf|
    && var a := peer.todo[0][|argv|];
    && buf[pos] == DOLLAR && buf[pos + 1..i] == Text(|a|) && |a| <= MAX_BULK
    && buf[i + 2..] + peer.unread == Rest(|a|, peer.todo[0][|argv|..]) + PrintAll(peer.todo[1..])
  }

  lemma LineParts(buf: bytes, pos: nat, argv: seq<bytes>, peer: Peer, i: nat)
    requires peer.Printer? && LineAt(buf, pos, argv, peer, i)
    ensures peer.todo != [] && |argv| < |peer.todo[0]| && pos < i && i + 2 <= |buf| && buf[pos] == DOLLAR
    ensures buf[pos + 1..i] == Text(|peer.todo[0][|argv|]|) && |peer.todo[0][|argv|]| <= MAX_BULK
  {}

  /** A header is waiting: the search for its CR and what it finds. */
  lemma BulkLenScan(buf: bytes, pos: nat, m: nat, argv: seq<bytes>, peer: Peer, found: bool, i: nat)
    requires m > 0 && InCommand(buf, pos, m, -1, argv, peer) && peer.Printer? && Scanned(buf, pos, CR, found, i)
    ensures |buf| <= PROTO_INLINE_MAX_SIZE
    ensures !found || i + 2 > |buf| ==> Starved(buf, pos, -1, peer)
    ensures found && i + 2 <= |buf| ==> LineAt(buf, pos, argv, peer, i)
  {
    var cmd, rest := peer.todo[0], PrintAll(peer.todo[1..]);
    assert Allowed(cmd);
    var args := cmd[|argv|..];
    TailArgs(cmd, |argv|);
    hide PrintAll, PrintArgs, Text, Header, Rest, Scanned;
    var tail := Rest(|args[0]|, args) + rest;
    RestUnknown(args);
    ArgHeader(args, rest);
    HeaderScan(buf, pos, peer.unread, DOLLAR, |args[0]|, tail, found, i);
    TextShort(|args[0]|);
    if found && i + 2 <= |buf| { HeaderRead(buf, pos, peer.unread, DOLLAR, |args[0]|, tail, i); }
  }

  lemma RestUnknown(args: seq<bytes>)
    ensures Rest(-1, args) == PrintArgs(args)
  {}

  lemma CountScan(buf: bytes, peer: Peer, found: bool, i: nat)
    requires Between(buf, peer) && peer.Printer? && buf != [] && Scanned(buf, 0, CR, found, i)
    ensures |buf| <= PROTO_INLINE_MAX_SIZE && peer.todo != []
    ensures !found || i + 2 > |buf| ==> Starved(buf, 0, -1, peer)
    ensures found && i + 2 <= |buf| ==>
      var n := |peer.todo[0]|;
      && i == 1 + |Text(n)| && buf[1..i] == Text(n) && 1 <= n <= MAX_ARGS
      && InCommand(buf, i + 2, n, -1, [], peer)
  {
    var cmd, rest := peer.todo[0], PrintAll(peer.todo[1..]);
    assert Allowed(cmd);
    var args := PrintArgs(cmd);
    assert PrintAll(peer.todo) == (Header(STAR, |cmd|) + args) + rest;
    hide PrintAll, PrintArgs, Text, Header, Scanned, Rest;
    Assoc(Header(STAR, |cmd|), args, rest);
    assert buf[0..] == buf;
    HeaderScan(buf, 0, peer.unread, STAR, |cmd|, args + rest, found, i);
    TextShort(|cmd|);
    if found && i + 2 <= |buf| {
      HeaderRead(buf, 0, peer.unread, STAR, |cmd|, args + rest, i);
      RestUnknown(cmd);
      assert cmd[0..] == cmd;
    }
  }

  lemma NumberRead(s: bytes, n: nat, ok: bool, value: int)
    requires s == Text(n) && n <= MAX_BULK && (ok <==> IsIntText(s)) && (ok ==> Text(value) == s)
    ensures ok && value == n
  {
    assert IsI64(n);
    if ok { TextInjective(value, n); }
    hide Text;
  }

  lemma TrimOk(buf: bytes, pos: nat, m: nat, b: int, argv: seq<bytes>, peer: Peer)
    requires InCommand(buf, pos, m, b, argv, peer)
    ensures InCommand(buf[pos..], 0, m, b, argv, peer)
    ensures Starved(buf, pos, b, peer) ==> Starved(buf[pos..], 0, b, peer)
  {
    assert buf[pos..][0..] == buf[pos..];
  }

  /** All arguments are in: the command is complete and the next one follows. */
  lemma CommandDone(buf: bytes, argv: seq<bytes>, peer: Peer)
    requires InCommand(buf, 0, 0, -1, argv, peer) && peer.Printer?
    ensures peer.todo != [] && argv == peer.todo[0] && Between(buf, peer.(todo := peer.todo[1..]))
  {
    var cmd := peer.todo[0];
    assert cmd[|argv|..] == [] && cmd[..|cmd|] == cmd;
    RestUnknown([]);
    assert buf[0..] == buf;
  }

  lemma LengthRead(buf: bytes, pos: nat, m: nat, argv: seq<bytes>, peer: Peer, i: nat, ll: nat)
    requires m > 0 && InCommand(buf, pos, m, -1, argv, peer) && i + 2 <= |buf| && ll <= MAX_BULK
    requires peer.Printer? ==> LineAt(buf, pos, argv, peer, i) && ll == |peer.todo[0][|argv|]|
    ensures InCommand(buf, i + 2, m, ll, argv, peer)
  {}

  lemma BulkMissing(buf: bytes, pos: nat, m: nat, b: nat, argv: seq<bytes>, peer: Peer)
    requires m > 0 && InCommand(buf, pos, m, b, argv, peer)
    ensures |buf| - pos < b + 2 ==> Starved(buf, pos, b, peer)
  {
    if peer.Printer? {
      var cmd := peer.todo[0];
      hide PrintAll, PrintArgs, Rest, AllAllowed;
      TailArgs(cmd, |argv|);
      ArgTaken(buf, pos, b, cmd[|argv|..], peer.unread, PrintAll(peer.todo[1..]));
    }
  }

  lemma BulkTaken(buf: bytes, pos: nat, m: nat, b: nat, argv: seq<bytes>, peer: Peer)
    requires m > 0 && InCommand(buf, pos, m, b, argv, peer)
    requires |buf| - pos >= b + 2 && !(pos == 0 && b >= PROTO_MBULK_BIG_ARG && |buf| == b + 2)
    ensures InCommand(buf, pos + b + 2, m - 1, -1, argv + [buf[pos..pos + b]], peer)
  {
    if peer.Printer? {
      var cmd := peer.todo[0];
      hide PrintAll, PrintArgs, Rest, AllAllowed;
      TailArgs(cmd, |argv|);
      ArgTaken(buf, pos, b, cmd[|argv|..], peer.unread, PrintAll(peer.todo[1..]));
    }
  }

  lemma BufferTaken(buf: bytes, m: nat, b: nat, argv: seq<bytes>, peer: Peer)
    requires m > 0 && InCommand(buf, 0, m, b, argv, peer) && |buf| == b + 2
    ensures InCommand([], 0, m - 1, -1, argv + [buf[..|buf| - 2]], peer)
  {
    if peer.Printer? {
      var cmd := peer.todo[0];
      hide PrintAll, PrintArgs, Rest, AllAllowed;
      TailArgs(cmd, |argv|);
      ArgTaken(buf, 0, b, cmd[|argv|..], peer.unread, PrintAll(peer.todo[1..]));
      assert buf[0 + b + 2..] == ([])[0..] && buf[0..0 + b] == buf[..|buf| - 2];
    }
  }

  /** What was consumed for the request that is being read. */
  ghost predicate InProgress(m: nat, b: int, argv: seq<bytes>, taken: bytes) {
    if m == 0 then taken == [] else Begun(|argv| + m, argv, b, taken)
  }

  /** While the dispatched commands grow from d0 to d1, done are those of the
      printer among them. */
  ghost predicate Progress(peer0: Peer, peer: Peer, d0: seq<Command>, d1: seq<Command>, done: seq<Command>) {
    && (peer0.Anyone? ==> peer == peer0)
    && (peer0.Printer? ==> peer.Printer? && peer.unread == peer0.unread && peer0.todo == done + peer.todo && d1 == d0 + done)
  }

  lemma NoProgress(peer: Peer, d: seq<Command>)
    ensures Progress(peer, peer, d, d, [])
  {
    assert d + [] == d;
  }

  lemma ProgressMore(peer0: Peer, peer: Peer, d0: seq<Command>, d1: seq<Command>, done: seq<Command>, next: Peer, d2: seq<Command>)
    returns (all: seq<Command>)
    requires Progress(peer0, peer, d0, d1, done)
    requires peer.Anyone? ==> next == peer
    requires peer.Printer? ==> peer.todo != [] && next == peer.(todo := peer.todo[1..]) && d2 == d1 + [peer.todo[0]]
    ensures Progress(peer0, next, d0, d2, all)
  {
    all := done;
    if peer0.Printer? {
      all := done + [peer.todo[0]];
      Assoc(done, [peer.todo[0]], next.todo);
      Assoc(d0, done, [peer.todo[0]]);
    }
  }

  lemma ProgressIs(peer0: Peer, peer: Peer, d0: seq<Command>, d1: seq<Command>, done: seq<Command>)
    requires Progress(peer0, peer, d0, d1, done)
    ensures peer0.Anyone? ==> peer == peer0
    ensures peer0.Printer? ==> peer.Printer? && peer.unread == peer0.unread && peer0.todo == done + peer.todo && d1 == d0 + done
  {}

  /** Why a protocol error is right: the bytes q, behind those taken, start with
      no count, or go on with a command up to a place where no length is. */
  ghost predicate Misspelt(q: bytes, taken: bytes) {
    || (taken == [] && BadLine(q, 0, STAR, I64MIN, MAX_ARGS))
    || exists n: nat, argv: seq<bytes>, head, rest ::
         |argv| < n && q == head + rest && Begun(n, argv, -1, taken + head) && Refused(|q|, rest)
  }

  /** Why a client is closed: behind the requests, the bytes taken and q are too
      many to wait for the end of a request, or spell none. */
  ghost predicate Broken(received: bytes, requests: seq<Request>) {
    exists taken, q, more ::
      received == Texts(requests) + taken + q + more && (|q| > PROTO_MAX_QUERYBUF_LEN || Misspelt(q, taken))
  }

  /** What is dispatched is what the bytes received spell, whoever sent them;
      what they spell further is in the buffer or belongs to the request that is
      being read. */
  ghost predicate Accounted(dispatched: seq<Command>, received: bytes, requests: seq<Request>, taken: bytes,
                            buf: bytes, m: nat, b: int, argv: seq<bytes>, closing: bool)
  {
    && AllOk(requests) && dispatched == Commands(requests)
    && if closing then Broken(received, requests)
       else received == Texts(requests) + taken + buf && InProgress(m, b, argv, taken)
  }

  lemma Regroup(a: bytes, b: bytes, c: bytes, d: bytes)
    ensures a + b + (c + d) == a + (b + c) + d == a + (b + c) + [] + d
  {
    Assoc(a, b, c + d);
    Assoc(b, c, d);
    Assoc(a, b + c, d);
  }

  lemma NoneAccounted()
    ensures Accounted([], [], [], [], [], 0, -1, [], false)
  {
    NothingRead();
  }

  lemma AccountedNow(d: seq<Command>, received: bytes, rs: seq<Request>, taken: bytes,
                     q: bytes, m: nat, b: int, argv: seq<bytes>)
    requires Accounted(d, received, rs, taken, q, m, b, argv, false)
    ensures InProgress(m, b, argv, taken)
  {}

  lemma AccountedPart(d: seq<Command>, received: bytes, rs: seq<Request>, taken: bytes,
                      q: bytes, m: nat, b: int, argv: seq<bytes>, head: bytes, q1: bytes, m1: nat, b1: int, argv1: seq<bytes>)
    requires Accounted(d, received, rs, taken, q, m, b, argv, false)
    requires q == head + q1 && InProgress(m1, b1, argv1, taken + head)
    ensures Accounted(d, received, rs, taken + head, q1, m1, b1, argv1, false)
  {
    hide AllOk, Texts, Commands, InProgress;
    Regroup(Texts(rs), taken, head, q1);
  }

  lemma AccountedRequest(d: seq<Command>, received: bytes, rs: seq<Request>, taken: bytes,
                         q: bytes, m: nat, b: int, argv: seq<bytes>, head: bytes, q1: bytes, cmd: Command)
    requires Accounted(d, received, rs, taken, q, m, b, argv, false)
    requires q == head + q1 && RequestOk(Request(cmd, taken + head))
    ensures Accounted(if cmd == [] then d else d + [cmd], received, rs + [Request(cmd, taken + head)], [], q1, 0, -1, [], false)
  {
    OneMore(rs, Request(cmd, taken + head));
    hide AllOk, Texts, Commands, RequestOk, Begun;
    Regroup(Texts(rs), taken, head, q1);
    assert InProgress(0, -1, [], []);
  }

  lemma AccountedError(d: seq<Command>, received: bytes, rs: seq<Request>, taken: bytes,
                       q: bytes, m: nat, b: int, argv: seq<bytes>, q1: bytes, m1: nat, b1: int, argv1: seq<bytes>)
    requires Accounted(d, received, rs, taken, q, m, b, argv, false)
    requires |q| > PROTO_MAX_QUERYBUF_LEN || Misspelt(q, taken)
    ensures Accounted(d, received, rs, taken, q1, m1, b1, argv1, true)
  {
    hide AllOk, Texts, Commands, Misspelt, InProgress;
    assert received == Texts(rs) + taken + q + [];
  }

  lemma AccountedMore(d: seq<Command>, received: bytes, rs: seq<Request>, taken: bytes,
                      q: bytes, m: nat, b: int, argv: seq<bytes>, closing: bool, nread: bytes)
    requires Accounted(d, received, rs, taken, q, m, b, argv, closing)
    ensures Accounted(d, received + nread, rs, taken, q + nread, m, b, argv, closing)
  {
    hide AllOk, Texts, Commands, Misspelt, InProgress;
    if closing {
      var t, q0, more :|
        received == Texts(rs) + t + q0 + more && (|q0| > PROTO_MAX_QUERYBUF_LEN || Misspelt(q0, t));
      Assoc(Texts(rs) + t + q0, more, nread);
    } else {
      Assoc(Texts(rs) + taken, q, nread);
    }
  }

  /** What the fields of a client mean together. */
  ghost predicate Shaped(buf: bytes, reqtype: ReqType, m: nat, b: int, argv: seq<bytes>, closing: bool, peer: Peer) {
    && (m > 0 ==> reqtype == Multibulk)
    && (reqtype == Multibulk && m == 0 && !closing ==> buf != [] && buf[0] == STAR)
    && (!closing && m == 0 ==> argv == [] && b == -1 && Between(buf, peer))
    && (!closing && m > 0 ==> InCommand(buf, 0, m, b, argv, peer))
    && (peer.Printer? ==> !closing && reqtype != Inline)
  }

  class Client {
    var querybuf: bytes
    var reqtype: ReqType
    var multibulklen: nat
    var bulklen: int
    var argv: seq<bytes>
    var closing: bool
    /** The commands handed to processCommand, in order. */
    var dispatched: seq<Command>
    /** Everything read from the socket, the requests found in it, and what was
        consumed after them. */
    ghost var received: bytes
    ghost var requests: seq<Request>
    ghost var taken: bytes

    constructor ()
      ensures AtRest(Printer([], [])) && !closing && dispatched == [] && querybuf == [] && multibulklen == 0 && received == []
    {
      querybuf, reqtype, multibulklen, bulklen, argv, closing, dispatched := [], Unknown, 0, -1, [], false, [];
      received, requests, taken := [], [], [];
      NoneAccounted();
    }

    ghost predicate Faithful()
      reads this
    {
      Accounted(dispatched, received, requests, taken, querybuf, multibulklen, bulklen, argv, closing)
    }

    /** The state between two reads. */
    ghost predicate AtRest(peer: Peer)
      reads this
    {
      && Shape(peer) && Faithful()
      && (!closing ==> if reqtype == Unknown then querybuf == [] else reqtype == Inline || Unready(querybuf, 0, bulklen))
      && (peer.Printer? ==> if querybuf == [] && multibulklen == 0 then Between([], peer) else Starved(querybuf, 0, bulklen, peer))
    }

    ghost predicate Shape(peer: Peer)
      reads this
    {
      Shaped(querybuf, reqtype, multibulklen, bulklen, argv, closing, peer)
    }

    /** setProtocolError. */
    method SetProtocolError(pos: nat)
      requires pos <= |querybuf|
      modifies this`closing, this`querybuf
      ensures closing && querybuf == old(querybuf)[pos..]
    {
      closing := true;
      querybuf := querybuf[pos..];
    }

    /** The first line of a request: its number of arguments. */
    method ReadCount(ghost peer: Peer) returns (status: Status, pos: nat)
      requires querybuf != [] && querybuf[0] == STAR && !closing && multibulklen == 0 && argv == [] && bulklen == -1
      requires Between(querybuf, peer)
      modifies this`closing, this`querybuf, this`multibulklen
      ensures closing <==> status == Fail
      ensures status == Fail <==> BadLine(old(querybuf), 0, STAR, I64MIN, MAX_ARGS)
      ensures peer.Printer? ==> status == Wait || status == Go
      ensures status == Wait ==> querybuf == old(querybuf) && multibulklen == 0 && Starved(querybuf, 0, -1, peer)
      ensures status == Wait ==> forall i :: !Line(querybuf, 0, i)
      ensures status == Empty ==> |querybuf| < |old(querybuf)| && multibulklen == 0
      ensures status == Empty ==>
        exists i: nat, v :: v <= 0 && Number(old(querybuf), 0, i, STAR, v) && i + 2 <= |old(querybuf)| && querybuf == old(querybuf)[i + 2..]
      ensures status == Go ==> pos >= 2 && Number(querybuf, 0, pos - 2, STAR, multibulklen)
      ensures status == Go ==>
        0 < pos && querybuf == old(querybuf) && multibulklen > 0 && InCommand(querybuf, pos, multibulklen, -1, [], peer)
    {
      hide InCommand, Starved, Between, Scanned, PrintAll, Text, IsIntText, Line, TooLong, BadLine, Number;
      pos := 0;
      var found, newline := StrChr(querybuf, 0, CR);
      FirstIsStar(querybuf, found, newline);
      if peer.Printer? { CountScan(querybuf, peer, found, newline); }
      NotPrinter(peer);
      if !found || newline + 2 > |querybuf| { Unended(querybuf, 0, STAR, I64MIN, MAX_ARGS, found, newline); }
      if !found {
        if |querybuf| > PROTO_INLINE_MAX_SIZE {
          SetProtocolError(0);
          return Fail, 0;
        }
        return Wait, 0;
      }
      if newline > |querybuf| - 2 { return Wait, 0; }
      LineIs(querybuf, 0, newline);
      var ok, ll := String2Ll(querybuf[1..newline]);
      LineVerdict(querybuf, 0, STAR, I64MIN, MAX_ARGS, newline, ok, ll);
      if peer.Printer? { NumberRead(querybuf[1..newline], |peer.todo[0]|, ok, ll); }
      if !ok || ll > MAX_ARGS {
        SetProtocolError(0);
        return Fail, 0;
      }
      pos := newline + 2;
      if ll <= 0 {
        assert Number(querybuf, 0, newline, STAR, ll);
        querybuf := querybuf[pos..];
        return Empty, 0;
      }
      multibulklen := ll;
      AnyoneInCommand(querybuf, pos, multibulklen, -1, [], peer);
      return Go, pos;
    }

    /** The end of the line before an argument, when all of it has arrived. */
    method FindLine(pos: nat, ghost peer: Peer) returns (status: Status, newline: nat)
      requires !closing && multibulklen > 0 && InCommand(querybuf, pos, multibulklen, -1, argv, peer)
      modifies this`closing, this`querybuf
      ensures status != Empty && (closing <==> status == Fail) && (peer.Printer? ==> status != Fail)
      ensures status != Fail ==> querybuf == old(querybuf)
      ensures status == Fail <==> TooLong(old(querybuf), pos)
      ensures status == Wait ==> Starved(querybuf, pos, -1, peer) && forall i :: !Line(querybuf, pos, i)
      ensures status == Go ==> Line(querybuf, pos, newline)
      ensures status == Go ==> pos <= newline && newline + 2 <= |querybuf| && querybuf[newline] == CR
      ensures status == Go && peer.Printer? ==> LineAt(querybuf, pos, argv, peer, newline)
    {
      PosBound(querybuf, pos, multibulklen, -1, argv, peer);
      hide InCommand, Starved, Scanned, LineAt, Line, TooLong, BadLine;
      var found;
      found, newline := StrChr(querybuf, pos, CR);
      ScanBounds(querybuf, pos, found, newline);
      if peer.Printer? { BulkLenScan(querybuf, pos, multibulklen, argv, peer, found, newline); }
      NotPrinter(peer);
      if !found || newline + 2 > |querybuf| {
        Unended(querybuf, pos, DOLLAR, 0, MAX_BULK, found, newline);
      } else {
        LineIs(querybuf, pos, newline);
        Ended(querybuf, pos, DOLLAR, 0, MAX_BULK, newline);
      }
      if !found {
        if |querybuf| > PROTO_INLINE_MAX_SIZE {
          SetProtocolError(0);
          return Fail, 0;
        }
        return Wait, 0;
      }
      if newline > |querybuf| - 2 { return Wait, 0; }
      return Go, newline;
    }

    /** The line before an argument: its length. */
    method ReadBulkLen(pos0: nat, ghost peer: Peer) returns (status: Status, pos: nat)
      requires !closing && multibulklen > 0 && bulklen == -1 && InCommand(querybuf, pos0, multibulklen, -1, argv, peer)
      modifies this`closing, this`querybuf, this`bulklen
      ensures closing <==> status == Fail
      ensures status == Fail <==> BadLine(old(querybuf), pos0, DOLLAR, 0, MAX_BULK)
      ensures status == Fail ==> bulklen == -1
      ensures status != Empty && (peer.Printer? ==> status != Fail)
      ensures status == Wait ==> querybuf == old(querybuf) && pos == pos0 && bulklen == -1 && Starved(querybuf, pos, -1, peer)
      ensures status == Wait ==> forall i: nat :: !Line(querybuf, pos, i)
      ensures status == Go ==> exists i: nat ::
        Number(old(querybuf), pos0, i, DOLLAR, bulklen) && i + 2 <= |old(querybuf)| && pos <= |querybuf| && querybuf[pos..] == old(querybuf)[i + 2..]
      ensures status == Go ==> bulklen >= 0 && InCommand(querybuf, pos, multibulklen, bulklen, argv, peer)
      ensures status == Go ==> |querybuf| - pos <= |old(querybuf)| - pos0 && |querybuf| <= |old(querybuf)|
    {
      hide InCommand, Starved, LineAt, IsIntText, Text, Line, TooLong, BadLine, Number;
      pos := pos0;
      var newline;
      BadLineIs(querybuf, pos, DOLLAR, 0, MAX_BULK);
      status, newline := FindLine(pos, peer);
      if status != Go { return; }
      if peer.Printer? { LineParts(querybuf, pos, argv, peer, newline); }
      Ended(querybuf, pos, DOLLAR, 0, MAX_BULK, newline);
      if querybuf[pos] != DOLLAR {
        MarkerIs(querybuf, pos, newline, DOLLAR);
        SetProtocolError(pos);
        return Fail, 0;
      }
      DollarBefore(querybuf, pos, newline);
      var ok, ll := String2Ll(querybuf[pos + 1..newline]);
      if peer.Printer? { NumberRead(querybuf[pos + 1..newline], |peer.todo[0][|argv|]|, ok, ll); }
      LineVerdict(querybuf, pos, DOLLAR, 0, MAX_BULK, newline, ok, ll);
      if !ok || ll < 0 || ll > MAX_BULK {
        SetProtocolError(pos);
        return Fail, 0;
      }
      LengthRead(querybuf, pos, multibulklen, argv, peer, newline, ll);
      assert Number(old(querybuf), pos0, newline, DOLLAR, ll);
      pos := SetBulkLen(newline + 2, ll, peer);
    }

    /** A big argument is moved to the front of the buffer. */
    method SetBulkLen(pos0: nat, ll: nat, ghost peer: Peer) returns (pos: nat)
      requires multibulklen > 0 && InCommand(querybuf, pos0, multibulklen, ll, argv, peer)
      modifies this`querybuf, this`bulklen
      ensures bulklen == ll && InCommand(querybuf, pos, multibulklen, bulklen, argv, peer)
      ensures pos <= |querybuf| <= |old(querybuf)| && pos0 <= |old(querybuf)| && querybuf[pos..] == old(querybuf)[pos0..]
    {
      PosBound(querybuf, pos0, multibulklen, ll, argv, peer);
      hide InCommand, Starved;
      pos := pos0;
      if ll >= PROTO_MBULK_BIG_ARG {
        TrimOk(querybuf, pos, multibulklen, ll, argv, peer);
        querybuf := querybuf[pos..];
        pos := 0;
      }
      bulklen := ll;
    }

    /** An argument of known length, when all of it has arrived. */
    method ReadBulk(pos0: nat, ghost peer: Peer) returns (taken: bool, pos: nat)
      requires multibulklen > 0 && bulklen >= 0 && InCommand(querybuf, pos0, multibulklen, bulklen, argv, peer)
      modifies this`querybuf, this`multibulklen, this`bulklen, this`argv
      ensures pos0 <= |old(querybuf)| && (taken <==> |old(querybuf)| - pos0 >= old(bulklen) + 2)
      ensures taken ==>
        && argv == old(argv) + [old(querybuf)[pos0..pos0 + old(bulklen)]]
        && pos <= |querybuf| && querybuf[pos..] == old(querybuf)[pos0 + old(bulklen) + 2..]
      ensures !taken ==>
        && querybuf == old(querybuf) && pos == pos0 && multibulklen == old(multibulklen) && bulklen == old(bulklen)
        && argv == old(argv) && |querybuf| - pos < bulklen + 2 && Starved(querybuf, pos, bulklen, peer)
      ensures taken ==>
        && multibulklen == old(multibulklen) - 1 && bulklen == -1 && InCommand(querybuf, pos, multibulklen, -1, argv, peer)
        && |querybuf| - pos < |old(querybuf)| - pos0 && |querybuf| <= |old(querybuf)|
    {
      hide *;
      PosBound(querybuf, pos0, multibulklen, bulklen, argv, peer);
      BulkMissing(querybuf, pos0, multibulklen, bulklen, argv, peer);
      pos := pos0;
      if |querybuf| - pos < bulklen + 2 { return false, pos; }
      if pos == 0 && bulklen >= PROTO_MBULK_BIG_ARG && |querybuf| == bulklen + 2 {
        TakeBuffer(peer);
      } else {
        pos := TakeCopy(pos, peer);
      }
      taken := true;
    }

    /** The buffer itself becomes the argument and a fresh one takes its place. */
    method TakeBuffer(ghost peer: Peer)
      requires multibulklen > 0 && bulklen >= 0 && |querybuf| == bulklen + 2
      requires InCommand(querybuf, 0, multibulklen, bulklen, argv, peer)
      modifies this`querybuf, this`multibulklen, this`bulklen, this`argv
      ensures multibulklen == old(multibulklen) - 1 && bulklen == -1 && querybuf == []
      ensures argv == old(argv) + [old(querybuf)[0..0 + old(bulklen)]]
      ensures InCommand([], 0, multibulklen, -1, argv, peer)
    {
      hide *;
      BufferTaken(querybuf, multibulklen, bulklen, argv, peer);
      AddArg(querybuf[..|querybuf| - 2]);
      querybuf := [];
    }

    method TakeCopy(pos0: nat, ghost peer: Peer) returns (pos: nat)
      requires multibulklen > 0 && bulklen >= 0 && InCommand(querybuf, pos0, multibulklen, bulklen, argv, peer)
      requires |querybuf| - pos0 >= bulklen + 2 && !(pos0 == 0 && bulklen >= PROTO_MBULK_BIG_ARG && |querybuf| == bulklen + 2)
      modifies this`multibulklen, this`bulklen, this`argv
      ensures multibulklen == old(multibulklen) - 1 && bulklen == -1 && pos == pos0 + old(bulklen) + 2
      ensures argv == old(argv) + [querybuf[pos0..pos0 + old(bulklen)]]
      ensures InCommand(querybuf, pos, multibulklen, -1, argv, peer)
    {
      hide *;
      BulkTaken(querybuf, pos0, multibulklen, bulklen, argv, peer);
      pos := pos0 + bulklen + 2;
      AddArg(querybuf[pos0..pos0 + bulklen]);
    }

    method AddArg(arg: bytes)
      requires multibulklen > 0
      modifies this`argv, this`bulklen, this`multibulklen
      ensures argv == old(argv) + [arg] && bulklen == -1 && multibulklen == old(multibulklen) - 1
    {
      argv := argv + [arg];
      bulklen := -1;
      multibulklen := multibulklen - 1;
    }

    /** A request, as far as the buffer goes; head is what was consumed. */
    method ProcessMultibulkBuffer(ghost peer: Peer) returns (ok: bool, ghost head: bytes)
      requires Shape(peer) && reqtype == Multibulk && querybuf != [] && !closing
      requires InProgress(multibulklen, bulklen, argv, taken)
      modifies this`closing, this`querybuf, this`multibulklen, this`bulklen, this`argv
      ensures ok ==> !closing && multibulklen == 0 && bulklen == -1 && |querybuf| < |old(querybuf)|
      ensures ok && peer.Printer? ==> peer.todo != [] && argv == peer.todo[0] && argv != [] && Between(querybuf, peer.(todo := peer.todo[1..]))
      ensures !ok ==> Shape(peer) && (peer.Printer? ==> !closing && Starved(querybuf, 0, bulklen, peer))
      ensures !closing ==> old(querybuf) == head + querybuf
      ensures ok ==> RequestOk(Request(argv, taken + head))
      ensures !ok && !closing ==> InProgress(multibulklen, bulklen, argv, taken + head) && Unready(querybuf, 0, bulklen)
      ensures closing ==> !ok && Misspelt(old(querybuf), taken)
    {
      hide InCommand, Starved, Between, Spells, Begun, HeaderLine, BadLine, Number, Line, Refused;
      var pos: nat := 0;
      head := [];
      ghost var q0 := querybuf;
      assert q0 == [] + q0 && q0[0..] == q0 && taken + [] == taken;
      if multibulklen == 0 {
        var status;
        status, pos := ReadCount(peer);
        if status == Wait || status == Fail { return false, []; }
        if status == Empty {
          head := EmptyRequest(q0, querybuf);
          return true, head;
        }
        head := CountHead(q0, pos, multibulklen);
        assert taken + head == head;
      }
      PosBound(querybuf, pos, multibulklen, bulklen, argv, peer);
      ghost var n, b, argv0, start := |argv| + multibulklen, bulklen, argv, taken + head;
      ghost var args, more;
      ok, args, more := ReadArgs(pos, peer);
      BegunOn(n, argv0, b, start, args, bulklen, more);
      Assoc(taken, head, more);
      ghost var rest := querybuf;
      if closing { rest :| q0[pos..] == more + rest && Refused(|q0|, rest); }
      Assoc(head, more, rest);
      head := head + more;
      if ok { Whole(argv, taken + head); }
      if closing { MisspeltArg(q0, taken, head, rest, n, argv); }
    }

    /** The argument loop; args are the arguments it reads. */
    method ReadArgs(pos0: nat, ghost peer: Peer) returns (ok: bool, ghost args: seq<bytes>, ghost head: bytes)
      requires multibulklen > 0 && !closing && InCommand(querybuf, pos0, multibulklen, bulklen, argv, peer) && reqtype == Multibulk
      modifies this`closing, this`querybuf, this`multibulklen, this`bulklen, this`argv
      ensures ok ==> !closing && multibulklen == 0 && bulklen == -1 && |querybuf| < |old(querybuf)| - pos0
      ensures ok && peer.Printer? ==> peer.todo != [] && argv == peer.todo[0] && argv != [] && Between(querybuf, peer.(todo := peer.todo[1..]))
      ensures !ok ==> multibulklen > 0 && Shape(peer) && (peer.Printer? ==> Starved(querybuf, 0, bulklen, peer))
      ensures argv == old(argv) + args && |argv| + multibulklen == |old(argv)| + old(multibulklen)
      ensures pos0 <= |old(querybuf)| && Spells(old(bulklen), args, bulklen, head)
      ensures !closing ==> old(querybuf)[pos0..] == head + querybuf
      ensures !ok && !closing ==> Unready(querybuf, 0, bulklen)
      ensures closing ==>
        !ok && bulklen == -1 && exists rest :: old(querybuf)[pos0..] == head + rest && Refused(|old(querybuf)|, rest)
    {
      hide *;
      PosBound(querybuf, pos0, multibulklen, bulklen, argv, peer);
      var pos: nat, status := pos0, Go;
      ghost var q0, argv0, b0 := querybuf[pos0..], argv, bulklen;
      args, head := [], [];
      SpellsNone(b0, b0, []);
      assert argv0 + [] == argv0 && [] + q0 == q0;
      while multibulklen > 0 && status == Go
        invariant status != Empty && (closing <==> status == Fail) && (status != Go ==> multibulklen > 0)
        invariant status != Fail ==> pos <= |querybuf| <= |old(querybuf)| && q0 == head + querybuf[pos..] && InCommand(querybuf, pos, multibulklen, bulklen, argv, peer)
        invariant status == Wait ==> Unready(querybuf, pos, bulklen) && (peer.Printer? ==> Starved(querybuf, pos, bulklen, peer))
        invariant status == Fail ==> peer.Anyone? && bulklen == -1 && exists rest :: q0 == head + rest && Refused(|old(querybuf)|, rest)
        invariant args != [] ==> head != []
        invariant argv == argv0 + args && |argv| + multibulklen == |argv0| + old(multibulklen)
        invariant Spells(b0, args, bulklen, head) && (bulklen == -1 || bulklen >= 0)
        decreases multibulklen, status == Go
      {
        ghost var args1, b1, rest, some, more := args, bulklen, querybuf[pos..], [], [];
        status, pos, some, more := ReadArg(pos, |old(querybuf)|, peer);
        ReadOn(b0, args1, b1, head, some, bulklen, more);
        Assoc(argv0, args1, some);
        if status != Fail { Assoc(head, more, querybuf[pos..]); }
        args, head := args1 + some, head + more;
      }
      if closing {
        InsideShape(this, peer);
        return false, args, head;
      }
      ok := TrimTo(pos, peer);
      if !ok { InsideShape(this, peer); }
    }

    /** The end of the argument loop: what was consumed leaves the buffer. */
    method TrimTo(pos: nat, ghost peer: Peer) returns (ok: bool)
      requires InCommand(querybuf, pos, multibulklen, bulklen, argv, peer)
      requires multibulklen > 0 ==> Unready(querybuf, pos, bulklen) && (peer.Printer? ==> Starved(querybuf, pos, bulklen, peer))
      modifies this`querybuf
      ensures pos <= |old(querybuf)| && querybuf == old(querybuf)[pos..] && (ok <==> multibulklen == 0)
      ensures ok ==> bulklen == -1
      ensures ok && peer.Printer? ==> peer.todo != [] && argv == peer.todo[0] && argv != [] && Between(querybuf, peer.(todo := peer.todo[1..]))
      ensures !ok ==> InCommand(querybuf, 0, multibulklen, bulklen, argv, peer) && Unready(querybuf, 0, bulklen)
      ensures !ok && peer.Printer? ==> Starved(querybuf, 0, bulklen, peer)
    {
      PosBound(querybuf, pos, multibulklen, bulklen, argv, peer);
      TrimOk(querybuf, pos, multibulklen, bulklen, argv, peer);
      hide InCommand, Starved, Between, Unready;
      ok := multibulklen == 0;
      if !ok { UnreadyTrim(querybuf, pos, bulklen); }
      querybuf := querybuf[pos..];
      if ok {
        NoLength(querybuf, 0, bulklen, argv, peer);
        if peer.Printer? { CommandDone(querybuf, argv, peer); AllowedNonEmpty(querybuf, argv, peer); }
      }
    }

    /** One turn of the argument loop. */
    method ReadArg(pos0: nat, ghost n: nat, ghost peer: Peer)
      returns (status: Status, pos: nat, ghost args: seq<bytes>, ghost head: bytes)
      requires multibulklen > 0 && !closing && |querybuf| <= n && InCommand(querybuf, pos0, multibulklen, bulklen, argv, peer)
      modifies this`closing, this`querybuf, this`multibulklen, this`bulklen, this`argv
      ensures status != Empty && (closing <==> status == Fail) && pos0 <= |old(querybuf)|
      ensures argv == old(argv) + args && |argv| + multibulklen == |old(argv)| + old(multibulklen)
      ensures Spells(old(bulklen), args, bulklen, head) && (bulklen == -1 || bulklen >= 0)
      ensures status != Fail ==> pos <= |querybuf| <= |old(querybuf)|
      ensures status != Fail ==> old(querybuf)[pos0..] == head + querybuf[pos..] && InCommand(querybuf, pos, multibulklen, bulklen, argv, peer)
      ensures if status == Go then |args| == 1 && head != [] else args == []
      ensures status == Wait ==> Unready(querybuf, pos, bulklen) && (peer.Printer? ==> Starved(querybuf, pos, bulklen, peer))
      ensures status == Fail ==> peer.Anyone? && bulklen == -1 && head == [] && Refused(n, old(querybuf)[pos0..])
    {
      hide *;
      PosBound(querybuf, pos0, multibulklen, bulklen, argv, peer);
      pos, args, head := pos0, [], [];
      ghost var q0, b0 := querybuf, bulklen;
      SpellsNone(b0, b0, []);
      assert argv + [] == argv;
      if bulklen == -1 {
        status, pos := ReadBulkLen(pos, peer);
        if status == Fail {
          RefusedHere(n, q0, pos0);
          return Fail, 0, [], [];
        }
        if status == Wait {
          LineMissing(querybuf, pos);
          return;
        }
        head := LengthHead(q0, pos0, querybuf, pos, bulklen);
      }
      PosBound(querybuf, pos, multibulklen, bulklen, argv, peer);
      ghost var q1, p1, b1 := querybuf, pos, bulklen;
      var arrived;
      arrived, pos := ReadBulk(pos, peer);
      if !arrived {
        BytesMissing(querybuf, pos, bulklen);
        return Wait, pos, [], head;
      }
      ghost var more := ArgumentHead(q1, p1, b1, querybuf, pos);
      args := [q1[p1..p1 + b1]];
      ReadOn(b0, [], b1, head, args, -1, more);
      assert [] + args == args;
      Assoc(head, more, querybuf[pos..]);
      return Go, pos, args, head + more;
    }

    /** resetClient. */
    method Reset()
      modifies this`argv, this`reqtype, this`multibulklen, this`bulklen
      ensures argv == [] && reqtype == Unknown && multibulklen == 0 && bulklen == -1
    {
      argv, reqtype, multibulklen, bulklen := [], Unknown, 0, -1;
    }

    /** One turn of processInputBuffer for a multibulk request: when it is whole,
        it is dispatched, unless it is empty, and the client is reset. */
    method ProcessRequest(ghost peer: Peer) returns (ok: bool, ghost next: Peer)
      requires Shape(peer) && Faithful() && reqtype == Multibulk && querybuf != [] && !closing
      modifies this
      ensures Faithful() && Shape(next) && received == old(received) && (peer.Anyone? ==> next == peer)
      ensures ok ==> !closing && reqtype == Unknown && multibulklen == 0 && |querybuf| < |old(querybuf)|
      ensures ok && peer.Printer? ==>
        peer.todo != [] && next == peer.(todo := peer.todo[1..]) && dispatched == old(dispatched) + [peer.todo[0]]
      ensures !ok ==>
        && next == peer && dispatched == old(dispatched) && reqtype == Multibulk && (closing || Unready(querybuf, 0, bulklen))
        && (peer.Printer? ==> !closing && Starved(querybuf, 0, bulklen, peer))
    {
      hide InCommand, Starved, Between, Accounted, InProgress, Misspelt, RequestOk, Unready, Shaped, Begun, Texts, Commands;
      ghost var q0, m0, b0, argv0, taken0 := querybuf, multibulklen, bulklen, argv, taken;
      AccountedNow(dispatched, received, requests, taken0, q0, m0, b0, argv0);
      next := peer;
      ghost var head;
      ok, head := ProcessMultibulkBuffer(peer);
      if !ok {
        if closing {
          AccountedError(dispatched, received, requests, taken0, q0, m0, b0, argv0, querybuf, multibulklen, bulklen, argv);
        } else {
          AccountedPart(dispatched, received, requests, taken0, q0, m0, b0, argv0, head, querybuf, multibulklen, bulklen, argv);
          taken := taken0 + head;
        }
        return;
      }
      AccountedRequest(dispatched, received, requests, taken0, q0, m0, b0, argv0, head, querybuf, argv);
      if argv != [] { dispatched := dispatched + [argv]; }
      requests, taken := requests + [Request(argv, taken0 + head)], [];
      if peer.Printer? { next := peer.(todo := peer.todo[1..]); } else { AnyoneBetween(querybuf, peer); }
      Reset();
      StartsAnew(this, next);
    }

    /** processInputBuffer; done are the printer's commands it dispatches. */
    method ProcessInputBuffer(ghost peer0: Peer) returns (ghost peer: Peer, ghost done: seq<Command>)
      requires Shape(peer0) && querybuf != [] && Faithful()
      modifies this
      ensures AtRest(peer) && received == old(received) && Progress(peer0, peer, old(dispatched), dispatched, done)
    {
      assert peer0.Printer? ==> !closing;
      hide *;
      peer, done := peer0, [];
      NoProgress(peer0, dispatched);
      while |querybuf| > 0
        invariant Shape(peer) && Faithful() && received == old(received)
        invariant querybuf == [] ==> multibulklen == 0 && (!closing ==> reqtype == Unknown)
        invariant peer.Printer? ==> !closing
        invariant Progress(peer0, peer, old(dispatched), dispatched, done)
        decreases |querybuf|
      {
        if closing { break; }
        SetReqType(peer);
        if reqtype == Inline { break; }
        ghost var p, d := peer, dispatched;
        var ok;
        ok, peer := ProcessRequest(p);
        if !ok { break; }
        done := ProgressMore(peer0, p, old(dispatched), d, done, peer, dispatched);
      }
      IsAtRest(this, peer);
    }

    /** The kind of a request is decided by its first byte. */
    method SetReqType(ghost peer: Peer)
      requires Shape(peer) && Faithful() && querybuf != [] && !closing
      modifies this`reqtype
      ensures Shape(peer) && Faithful() && reqtype != Unknown && (peer.Printer? ==> reqtype == Multibulk)
      ensures old(reqtype) != Unknown ==> reqtype == old(reqtype)
    {
      hide InCommand, Starved, Between, Accounted;
      if reqtype == Unknown {
        if peer.Printer? { RequestStarts(querybuf, peer); }
        reqtype := if querybuf[0] == STAR then Multibulk else Inline;
      }
    }

    /** How many bytes readQueryFromClient asks for: the most that neither exceeds
        16 KB nor reads past a big argument. */
    function ReadLen(): (n: int)
      reads this
      ensures n <= 16384
      ensures multibulklen > 0 && reqtype == Multibulk && bulklen >= 32768 ==> n <= bulklen + 2 - |querybuf|
      ensures n == 16384 || (multibulklen > 0 && reqtype == Multibulk && bulklen >= 32768 && n == bulklen + 2 - |querybuf|)
    {
      if reqtype == Multibulk && multibulklen > 0 && bulklen != -1 && bulklen >= PROTO_MBULK_BIG_ARG
         && bulklen + 2 - |querybuf| < PROTO_IOBUF_LEN
      then bulklen + 2 - |querybuf| else PROTO_IOBUF_LEN
    }

    /** readQueryFromClient when read(2) yields nread bytes. */
    method Read(nread: bytes, ghost peer0: Peer) returns (ghost peer: Peer, ghost done: seq<Command>)
      requires AtRest(peer0) && 0 < |nread| <= ReadLen() && (peer0.Printer? ==> nread <= peer0.unread)
      modifies this
      ensures AtRest(peer)
      ensures received == old(received) + nread
      ensures |old(querybuf) + nread| > PROTO_MAX_QUERYBUF_LEN ==> closing && dispatched == old(dispatched)
      ensures peer0.Printer? ==>
        peer.Printer? && peer.unread == peer0.unread[|nread|..] && peer0.todo == done + peer.todo && dispatched == old(dispatched) + done
    {
      ghost var p := if peer0.Printer? then peer0.(unread := peer0.unread[|nread|..]) else peer0;
      Received(querybuf, nread, multibulklen, bulklen, argv, closing, peer0, p);
      AccountedMore(dispatched, received, requests, taken, querybuf, multibulklen, bulklen, argv, closing, nread);
      hide InCommand, Starved, Between, Accounted;
      querybuf, received := querybuf + nread, received + nread;
      if |querybuf| > PROTO_MAX_QUERYBUF_LEN {
        if !closing {
          AccountedError(dispatched, received, requests, taken, querybuf, multibulklen, bulklen, argv,
                         querybuf, multibulklen, bulklen, argv);
        }
        closing := true;
        return p, [];
      }
      ghost var d := dispatched;
      peer, done := ProcessInputBuffer(p);
      ProgressIs(p, peer, d, dispatched, done);
    }
  }

  lemma StartsAnew(c: Client, peer: Peer)
    requires c.multibulklen == 0 && c.argv == [] && c.bulklen == -1 && c.reqtype == Unknown && !c.closing && Between(c.querybuf, peer)
    ensures c.Shape(peer)
  {}

  lemma InsideShape(c: Client, peer: Peer)
    requires c.multibulklen > 0 && c.reqtype == Multibulk
    requires if c.closing then peer.Anyone? else InCommand(c.querybuf, 0, c.multibulklen, c.bulklen, c.argv, peer)
    ensures c.Shape(peer)
  {
    hide InCommand;
  }

  lemma IsAtRest(c: Client, peer: Peer)
    requires c.Shape(peer) && c.Faithful()
    requires !c.closing ==> if c.reqtype == Unknown then c.querybuf == [] else c.reqtype == Inline || Unready(c.querybuf, 0, c.bulklen)
    requires peer.Printer? ==> (c.querybuf == [] && c.multibulklen == 0) || Starved(c.querybuf, 0, c.bulklen, peer)
    ensures c.AtRest(peer)
  {
    hide InCommand, Starved, Accounted, Unready;
  }

  lemma Whole(argv: seq<bytes>, t: bytes)
    requires argv != [] && Begun(|argv|, argv, -1, t)
    ensures RequestOk(Request(argv, t))
  {}

  /** The text of a count that is not positive. */
  lemma EmptyRequest(q0: bytes, q1: bytes) returns (head: bytes)
    requires exists i: nat, v :: v <= 0 && Number(q0, 0, i, STAR, v) && i + 2 <= |q0| && q1 == q0[i + 2..]
    ensures q0 == head + q1 && RequestOk(Request([], head)) && [] + head == head
  {
    var i: nat, v :| v <= 0 && Number(q0, 0, i, STAR, v) && i + 2 <= |q0| && q1 == q0[i + 2..];
    NumberLine(q0, 0, i, STAR, v);
    hide Number, HeaderLine;
    head := q0[0..i + 2];
    assert HeaderLine(STAR, v, Request([], head).text);
  }

  lemma CountHead(q0: bytes, pos: nat, n: nat) returns (head: bytes)
    requires pos >= 2 && Number(q0, 0, pos - 2, STAR, n)
    ensures pos <= |q0| && q0 == head + q0[pos..] && Begun(n, [], -1, head)
  {
    NumberLine(q0, 0, pos - 2, STAR, n);
    hide Number, HeaderLine;
    head := q0[..pos];
    assert head[..pos] == q0[0..pos - 2 + 2] && head[pos..] == [];
    SpellsNone(-1, -1, []);
    hide Spells;
  }

  lemma MisspeltArg(q0: bytes, taken: bytes, head: bytes, rest: bytes, n: nat, argv: seq<bytes>)
    requires |argv| < n && Begun(n, argv, -1, taken + head) && q0 == head + rest && Refused(|q0|, rest)
    ensures Misspelt(q0, taken)
  {
    hide Begun, Refused;
  }

  lemma SameBytes(buf: bytes, nread: bytes, u: bytes)
    requires nread <= u
    ensures (buf + nread) + u[|nread|..] == buf + u && (buf + nread)[0..] == buf + nread && buf[0..] == buf
  {
    assert u == nread + u[|nread|..];
  }

  /** More bytes behind the ones of a client at rest. */
  lemma Received(buf: bytes, nread: bytes, m: nat, b: int, argv: seq<bytes>, closing: bool, peer: Peer, next: Peer)
    requires 0 < |nread| && (peer.Printer? ==> nread <= peer.unread && !closing)
    requires next == if peer.Printer? then peer.(unread := peer.unread[|nread|..]) else peer
    requires !closing && m == 0 ==> Between(buf, peer)
    requires !closing && m > 0 ==> InCommand(buf, 0, m, b, argv, peer)
    requires peer.Printer? ==> (buf == [] && m == 0) || Starved(buf, 0, b, peer)
    requires !closing && m == 0 ==> b == -1
    requires |nread| <= if m > 0 && b != -1 && b >= PROTO_MBULK_BIG_ARG && b + 2 - |buf| < PROTO_IOBUF_LEN
                        then b + 2 - |buf| else PROTO_IOBUF_LEN
    ensures !closing && m == 0 ==> Between(buf + nread, next)
    ensures !closing && m > 0 ==> InCommand(buf + nread, 0, m, b, argv, next)
    ensures peer.Printer? ==> |buf + nread| <= PROTO_MAX_QUERYBUF_LEN
  {
    if peer.Printer? {
      hide PrintAll, Rest, AllAllowed;
      SameBytes(buf, nread, peer.unread);
    }
  }

  /** Allowed are up to a million arguments of up to half a gigabyte each. */
  lemma LimitsMean(cmds: seq<Command>)
    ensures AllAllowed(cmds) <==>
              forall i :: 0 <= i < |cmds| ==> 1 <= |cmds[i]| <= 1048576 && forall j :: 0 <= j < |cmds[i]| ==> |cmds[i][j]| <= 536870912
  {}

  /** The event loop on a connection fed by the printer: whatever pieces read(2)
      delivers, the client dispatches exactly the printed commands in order and
      meets no protocol error; in between it has dispatched every command whose
      bytes have all been read. */
  method Serve(cmds: seq<Command>) returns (c: Client)
    requires AllAllowed(cmds)
    ensures c.dispatched == cmds && !c.closing && c.querybuf == [] && c.reqtype != Inline
  {
    hide *;
    c := new Client();
    var unread := PrintAll(cmds);
    ghost var peer, done := Printer(unread, cmds), [];
    StartAtRest(c, cmds);
    while |unread| > 0
      invariant fresh(c) && c.AtRest(peer) && peer.Printer? && peer.unread == unread
      invariant cmds == done + peer.todo && c.dispatched == done
      decreases |unread|
    {
      CanRead(c, peer);
      var n: nat :| 0 < n <= |unread| && n <= c.ReadLen();
      ghost var dispatched;
      peer, dispatched := c.Read(unread[..n], peer);
      unread := unread[n..];
      done := done + dispatched;
    }
    AllRead(c, peer);
  }

  lemma StartAtRest(c: Client, cmds: seq<Command>)
    requires AllAllowed(cmds) && c.AtRest(Printer([], [])) && !c.closing && c.querybuf == [] && c.multibulklen == 0
    ensures c.AtRest(Printer(PrintAll(cmds), cmds))
  {
    hide PrintAll;
    assert ([]) + PrintAll(cmds) == PrintAll(cmds);
  }

  lemma CanRead(c: Client, peer: Peer)
    requires c.AtRest(peer) && peer.Printer?
    ensures c.ReadLen() > 0
  {}

  lemma AllRead(c: Client, peer: Peer)
    requires c.AtRest(peer) && peer.Printer? && peer.unread == []
    ensures peer.todo == [] && c.querybuf == [] && !c.closing && c.reqtype != Inline
  {
    SomePrinted(peer.todo);
  }

  lemma SomePrinted(cmds: seq<Command>)
    ensures cmds != [] ==> |PrintAll(cmds)| > |PrintAll(cmds[1..])|
  {
    hide PrintArgs, Text;
  }

  /** A client at rest has dispatched every command whose last byte was read. */
  lemma NothingOverdue(c: Client, peer: Peer)
    requires c.AtRest(peer) && peer.Printer? && peer.todo != []
    ensures |peer.unread| > |PrintAll(peer.todo[1..])|
  {
    hide PrintAll;
    SomePrinted(peer.todo);
  }

  lemma NoLength(buf: bytes, pos: nat, b: int, argv: seq<bytes>, peer: Peer)
    requires InCommand(buf, pos, 0, b, argv, peer)
    ensures b == -1
  {}

  lemma AllowedNonEmpty(buf: bytes, argv: seq<bytes>, peer: Peer)
    requires InCommand(buf, 0, 0, -1, argv, peer) && peer.Printer?
    ensures argv != []
  {
    assert Allowed(peer.todo[0]);
  }

  lemma PosBound(buf: bytes, pos: nat, m: nat, b: int, argv: seq<bytes>, peer: Peer)
    requires InCommand(buf, pos, m, b, argv, peer)
    ensures pos <= |buf| && (b == -1 || 0 <= b <= MAX_BULK)
    ensures peer.Printer? ==> peer.todo != [] && |argv| + m == |peer.todo[0]|
  {}

  lemma ScanBounds(buf: bytes, pos: nat, found: bool, i: nat)
    requires Scanned(buf, pos, CR, found, i)
    ensures pos <= i <= |buf| && (found ==> i < |buf| && buf[i] == CR)
  {}

  lemma FirstIsStar(buf: bytes, found: bool, i: nat)
    requires buf != [] && buf[0] == STAR && Scanned(buf, 0, CR, found, i)
    ensures i >= 1 && i <= |buf|
  {}

  lemma DollarBefore(buf: bytes, pos: nat, i: nat)
    requires pos <= i < |buf| && buf[pos] == DOLLAR && buf[i] == CR
    ensures pos < i
  {}

  lemma NotPrinter(peer: Peer)
    ensures peer.Anyone? ==> forall buf, pos, b :: Starved(buf, pos, b, peer)
  {}

  lemma AnyoneInCommand(buf: bytes, pos: nat, m: nat, b: int, argv: seq<bytes>, peer: Peer)
    ensures peer.Anyone? && pos <= |buf| && b == -1 ==> InCommand(buf, pos, m, b, argv, peer)
  {}

  lemma RequestStarts(buf: bytes, peer: Peer)
    requires Between(buf, peer) && peer.Printer? && buf != []
    ensures buf[0] == STAR
  {
    assert (buf + peer.unread)[0] == buf[0];
  }

  lemma AnyoneBetween(buf: bytes, peer: Peer)
    requires peer.Anyone?
    ensures Between(buf, peer)
  {}
}
