// The multibulk form of commands: what replicationFeedSlaves prints
// (replication.c) and where its lines end.
module RespFormat {
  import opened Bytes
  import opened Util

  const CR: u8 := 13
  const LF: u8 := 10
  const STAR: u8 := 42
  const DOLLAR: u8 := 36
  const MAX_ARGS: nat := 1024 * 1024
  const MAX_BULK: nat := 512 * 1024 * 1024

  type Command = seq<bytes>

  function Header(c: u8, n: nat): bytes { [c] + Text(n) + [CR, LF] }

  function PrintArg(a: bytes): bytes { Header(DOLLAR, |a|) + (a + [CR, LF]) }

  function PrintArgs(args: seq<bytes>): bytes {
    if args == [] then [] else PrintArg(args[0]) + PrintArgs(args[1..])
  }

  function PrintCommand(cmd: Command): bytes { Header(STAR, |cmd|) + PrintArgs(cmd) }

  function PrintAll(cmds: seq<Command>): bytes {
    if cmds == [] then [] else PrintCommand(cmds[0]) + PrintAll(cmds[1..])
  }

  /** GET k as it goes over the wire. */
  lemma PrintedExample()
    ensures PrintCommand([[71, 69, 84], [107]]) ==
            [42, 50, 13, 10] + [36, 51, 13, 10] + [71, 69, 84, 13, 10] + [36, 49, 13, 10] + [107, 13, 10]
  {
    assert Text(1) == [49] && Text(2) == [50] && Text(3) == [51];
    hide Text;
    var args: seq<bytes> := [[71, 69, 84], [107]];
    assert args[1..] == [[107]] && args[1..][1..] == [];
  }

  /** The limits the parser puts on a command. */
  ghost predicate Allowed(cmd: Command) {
    1 <= |cmd| <= MAX_ARGS && forall i :: 0 <= i < |cmd| ==> |cmd[i]| <= MAX_BULK
  }

  lemma {:induction false} PrintArgsAppend(args: seq<bytes>, a: bytes)
    ensures PrintArgs(args + [a]) == PrintArgs(args) + PrintArg(a)
  {
    hide PrintArg;
    if args == [] {
      assert ([a])[1..] == [];
    } else {
      assert (args + [a])[1..] == args[1..] + [a];
      PrintArgsAppend(args[1..], a);
    }
  }

  lemma TextDigits(n: nat)
    ensures AllDigits(Text(n)) && |Text(n)| >= 1
  {
    ValOfDec(n);
  }

  lemma TextShort(n: nat)
    requires n <= MAX_BULK
    ensures |Text(n)| <= 10
  {
    Digits10Exact(n);
  }

  /** The state of strchr(buf + pos, c): it stops at c, at a NUL or at the end. */
  ghost predicate Scanned(buf: bytes, pos: nat, c: u8, found: bool, i: nat) {
    && pos <= i <= |buf|
    && (found ==> i < |buf| && buf[i] == c)
    && (!found ==> i == |buf| || buf[i] == 0)
    && forall j :: pos <= j < i ==> buf[j] != c && buf[j] != 0
  }

  method StrChr(buf: bytes, pos: nat, c: u8) returns (found: bool, i: nat)
    requires pos <= |buf|
    ensures Scanned(buf, pos, c, found, i)
  {
    i := pos;
    while i < |buf|
      invariant pos <= i <= |buf| && forall j :: pos <= j < i ==> buf[j] != c && buf[j] != 0
    {
      if buf[i] == c { return true, i; }
      if buf[i] == 0 { return false, i; }
      i := i + 1;
    }
    return false, i;
  }

  /** A header consists of its marker and digits up to the CR. */
  lemma HeaderBytes(c: u8, n: nat, k: nat)
    requires k < |Header(c, n)| && c != CR && c != 0
    ensures |Header(c, n)| == |Text(n)| + 3
    ensures k < 1 + |Text(n)| ==> Header(c, n)[k] != CR && Header(c, n)[k] != 0
    ensures k == 1 + |Text(n)| ==> Header(c, n)[k] == CR
  {
    TextDigits(n);
    hide Text;
  }

  /** Searching the received part of a header for its CR. */
  lemma HeaderScan(buf: bytes, pos: nat, unread: bytes, c: u8, n: nat, tail: bytes, found: bool, i: nat)
    requires pos <= |buf| && buf[pos..] + unread == Header(c, n) + tail && c != CR && c != 0
    requires Scanned(buf, pos, CR, found, i)
    ensures found ==> i == pos + 1 + |Text(n)|
    ensures !found ==> |buf| - pos < |Text(n)| + 2
    ensures |Header(c, n)| == |Text(n)| + 3
  {
    hide Text;
    var s := buf[pos..] + unread;
    var h := Header(c, n);
    HeaderBytes(c, n, 0);
    hide Header;
    var e := 1 + |Text(n)|;
    var k := if i - pos < |h| then i - pos else e;
    HeaderBytes(c, n, k);
    HeaderBytes(c, n, e);
    assert s[k] == (h + tail)[k] == h[k] && s[e] == (h + tail)[e] == h[e];
    assert k < |buf| - pos ==> s[k] == buf[pos + k];
    assert e < |buf| - pos ==> s[e] == buf[pos + e];
  }

  /** A header received in full up to its LF. */
  lemma HeaderRead(buf: bytes, pos: nat, unread: bytes, c: u8, n: nat, tail: bytes, i: nat)
    requires pos <= |buf| && buf[pos..] + unread == Header(c, n) + tail
    requires i == pos + 1 + |Text(n)| && i + 2 <= |buf|
    ensures buf[pos] == c && buf[pos + 1..i] == Text(n) && buf[i + 2..] + unread == tail
  {
    var s := buf[pos..] + unread;
    var h := Header(c, n);
    var t := Text(n);
    hide Text;
    assert s[0] == buf[pos] && (h + tail)[0] == c;
    assert s[1..1 + |t|] == buf[pos + 1..i] && (h + tail)[1..1 + |t|] == t;
    assert s[|h|..] == buf[i + 2..] + unread && (h + tail)[|h|..] == tail;
  }
}
