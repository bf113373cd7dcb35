// What a client dispatches for bytes from anyone: every whole request among
// them and nothing else, as there is only one way to read them.
module RespReading {
  import opened Bytes
  import opened Sequences
  import opened Util
  import opened RespFormat
  import opened RespSpelling
  import opened Resp

  /** A line that is there is found. */
  lemma LineThere(buf: bytes, c: u8, v: int, k: nat)
    requires k <= |buf| && HeaderLine(c, v, buf[..k]) && (c == STAR || c == DOLLAR)
    ensures k >= 2 && Line(buf, 0, k - 2)
  {
    var t := buf[..k];
    LineEnd(c, v, t, buf, 0);
    forall j: nat | j < k - 2 ensures buf[j] != CR && buf[j] != 0 { LineEnd(c, v, t, buf, j); }
    hide HeaderLine, Text;
  }

  /** What is spelled has arrived. */
  lemma ArgThere(buf: bytes, b: int, a: bytes, k: nat)
    requires k <= |buf| && SpellsArg(b, a, buf[..k])
    ensures !Unready(buf, 0, b)
  {
    if b == -1 {
      var t := buf[..k];
      var l :| 0 <= l <= |t| && HeaderLine(DOLLAR, |a|, t[..l]) && Body(a, t[l..]);
      assert t[..l] == buf[..l];
      hide HeaderLine;
      LineThere(buf, DOLLAR, |a|, l);
    }
  }

  lemma BegunParts(n: nat, argv: seq<bytes>, b: int, t: bytes) returns (k: nat)
    requires Begun(n, argv, b, t)
    ensures k <= |t| && HeaderLine(STAR, n, t[..k]) && Spells(-1, argv, b, t[k..])
  {
    k :| 0 <= k <= |t| && HeaderLine(STAR, n, t[..k]) && Spells(-1, argv, b, t[k..]);
  }

  lemma WholeArrived(buf: bytes, n: nat, b: int, argv: seq<bytes>, taken: bytes, r: Request)
    requires Begun(n, argv, b, taken) && |argv| < n && RequestOk(r) && r.text <= taken + buf
    ensures !Unready(buf, 0, b)
  {
    hide *;
    var s := taken + buf;
    var v, k := CountOf(r);
    var j := BegunParts(n, argv, b, taken);
    Parts(taken, s, j);
    Parts(r.text, s, k);
    HeaderUnique(STAR, n, taken[..j], v, r.text[..k], s);
    var i := SpellsLonger(argv, b, taken[j..], r.cmd, r.text[k..], s[j..]);
    BehindTaken(taken, buf, j, i);
    ArgThere(buf, b, r.cmd[|argv|], i - (|taken| - j));
  }

  lemma WholeFirst(buf: bytes, r: Request)
    requires RequestOk(r) && r.text <= buf
    ensures !Unready(buf, 0, -1)
  {
    hide *;
    var v, k := CountOf(r);
    Parts(r.text, buf, k);
    LineThere(buf, STAR, v, k);
    ArrivedLine(buf, k - 2);
  }

  /** A request of which the next part has not arrived is not whole. */
  lemma NotWhole(buf: bytes, m: nat, b: int, argv: seq<bytes>, taken: bytes, r: Request)
    requires InProgress(m, b, argv, taken) && (m == 0 ==> b == -1) && RequestOk(r) && r.text <= taken + buf
    ensures !Unready(buf, 0, b)
  {
    hide RequestOk, Begun, Unready;
    if m == 0 {
      assert taken + buf == buf;
      WholeFirst(buf, r);
    } else {
      WholeArrived(buf, |argv| + m, b, argv, taken, r);
    }
  }

  lemma ArrivedLine(buf: bytes, i: nat)
    requires Line(buf, 0, i)
    ensures !Unready(buf, 0, -1)
  {}

  lemma BehindTaken(taken: bytes, buf: bytes, j: nat, i: nat)
    requires j <= |taken| && |taken| - j <= i <= |taken| + |buf| - j
    ensures (taken + buf)[j..][|taken[j..]|..i] == buf[..i - (|taken| - j)]
  {}

  lemma RestParts(c: Client, peer: Peer)
    requires c.AtRest(peer) && !c.closing && c.reqtype != Inline
    ensures Unready(c.querybuf, 0, c.bulklen) && InProgress(c.multibulklen, c.bulklen, c.argv, c.taken)
    ensures c.multibulklen == 0 ==> c.bulklen == -1
    ensures c.received == Texts(c.requests) + c.taken + c.querybuf
    ensures AllOk(c.requests) && c.dispatched == Commands(c.requests)
  {}

  /** A client at rest has found every request that the bytes received start
      with, whoever sent them, and dispatched their commands. */
  lemma AllFound(c: Client, peer: Peer, rs: seq<Request>)
    requires c.AtRest(peer) && !c.closing && c.reqtype != Inline
    requires AllOk(rs) && Texts(rs) <= c.received
    ensures rs <= c.requests && AllOk(c.requests) && Texts(c.requests) <= c.received
    ensures c.dispatched == Commands(c.requests)
  {
    hide *;
    RestParts(c, peer);
    var qs, n := c.requests, |c.requests|;
    Assoc(Texts(qs), c.taken, c.querybuf);
    if |rs| <= n {
      ReadingsAgree(rs, qs, c.received);
    } else {
      ReadingsAgree(qs, rs, c.received);
      TextOf(rs, n, c.received);
      assert rs[..n] == qs;
      assert c.received[|Texts(qs)|..] == c.taken + c.querybuf;
      NotWhole(c.querybuf, c.multibulklen, c.bulklen, c.argv, c.taken, rs[n]);
    }
  }
}
