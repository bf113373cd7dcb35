// What bytes spell which requests for the parser of networking.c, which does
// not look at the byte behind a CR nor at the two behind an argument.
module RespSpelling {
  import opened Bytes
  import opened Sequences
  import opened Util
  import opened RespFormat

  /** A line of a marker and a number, with its CR and one byte more. */
  ghost predicate HeaderLine(c: u8, v: int, t: bytes) {
    |t| == |Text(v)| + 3 && t[0] == c && t[1..|t| - 2] == Text(v) && t[|t| - 2] == CR
  }

  predicate Body(a: bytes, t: bytes) { |t| == |a| + 2 && t[..|a|] == a }

  /** One argument, whose length b is known already or not (-1). */
  ghost predicate SpellsArg(b: int, a: bytes, t: bytes) {
    if b == -1 then exists k :: 0 <= k <= |t| && HeaderLine(DOLLAR, |a|, t[..k]) && Body(a, t[k..])
    else |a| == b && Body(a, t)
  }

  /** From a known length b (or -1) on: the arguments args, and then the line
      with the length c of one more, unless c is -1. */
  ghost predicate Spells(b: int, args: seq<bytes>, c: int, t: bytes)
    decreases |args|
  {
    if args == [] then if b == c then t == [] else b == -1 && HeaderLine(DOLLAR, c, t)
    else exists k :: 0 <= k <= |t| && SpellsArg(b, args[0], t[..k]) && Spells(-1, args[1..], c, t[k..])
  }

  /** A command of n arguments as far as it is read. */
  ghost predicate Begun(n: nat, args: seq<bytes>, c: int, t: bytes) {
    exists k :: 0 <= k <= |t| && HeaderLine(STAR, n, t[..k]) && Spells(-1, args, c, t[k..])
  }

  /** A whole request; without arguments its count is not positive. */
  datatype Request = Request(cmd: Command, text: bytes)

  ghost predicate RequestOk(r: Request) {
    if r.cmd == [] then exists v :: v <= 0 && HeaderLine(STAR, v, r.text) else Begun(|r.cmd|, r.cmd, -1, r.text)
  }

  ghost predicate AllOk(rs: seq<Request>) {
    forall i :: 0 <= i < |rs| ==> RequestOk(rs[i])
  }

  function Texts(rs: seq<Request>): bytes {
    if rs == [] then [] else Texts(rs[..|rs| - 1]) + rs[|rs| - 1].text
  }

  /** The requests that are dispatched. */
  function Commands(rs: seq<Request>): seq<Command> {
    if rs == [] then []
    else Commands(rs[..|rs| - 1]) + if rs[|rs| - 1].cmd == [] then [] else [rs[|rs| - 1].cmd]
  }

  lemma OneMore(rs: seq<Request>, r: Request)
    requires AllOk(rs) && RequestOk(r)
    ensures AllOk(rs + [r]) && Texts(rs + [r]) == Texts(rs) + r.text
    ensures Commands(rs + [r]) == Commands(rs) + if r.cmd == [] then [] else [r.cmd]
  {
    assert (rs + [r])[..|rs|] == rs;
    hide RequestOk;
  }

  lemma NothingRead()
    ensures AllOk([]) && Texts([]) == [] && Commands([]) == []
  {}

  /** A command as it is printed is a request that spells it. */
  lemma PrintedIsRequest(cmd: Command)
    requires cmd != []
    ensures RequestOk(Request(cmd, PrintCommand(cmd)))
  {
    var h, t := Header(STAR, |cmd|), PrintArgs(cmd);
    HeaderIsLine(STAR, |cmd|);
    PrintedArgs(cmd);
    hide Header, PrintArgs, HeaderLine, Spells;
    assert (h + t)[..|h|] == h && (h + t)[|h|..] == t;
    assert Begun(|cmd|, cmd, -1, h + t);
  }

  lemma HeaderIsLine(c: u8, n: nat)
    ensures HeaderLine(c, n, Header(c, n))
  {
    var x := Text(n);
    hide Text;
    assert ([c] + x + [CR, LF])[1..|x| + 1] == x;
  }

  lemma {:induction false} PrintedArgs(args: seq<bytes>)
    ensures Spells(-1, args, -1, PrintArgs(args))
    decreases |args|
  {
    if args != [] {
      var h, b, t := Header(DOLLAR, |args[0]|), args[0] + [CR, LF], PrintArgs(args[1..]);
      HeaderIsLine(DOLLAR, |args[0]|);
      PrintedArgs(args[1..]);
      hide Header, HeaderLine;
      assert (h + b)[..|h|] == h && (h + b)[|h|..] == b;
      assert SpellsArg(-1, args[0], h + b);
      assert ((h + b) + t)[..|h + b|] == h + b && ((h + b) + t)[|h + b|..] == t;
    }
  }

  lemma KnownThenArg(c: nat, a: bytes, t: bytes, u: bytes)
    requires HeaderLine(DOLLAR, c, t) && SpellsArg(c, a, u)
    ensures SpellsArg(-1, a, t + u)
  {
    assert (t + u)[..|t|] == t && (t + u)[|t|..] == u;
    hide Text;
  }

  lemma SpellsNone(b: int, c: int, t: bytes)
    ensures Spells(b, [], c, t) <==> if b == c then t == [] else b == -1 && HeaderLine(DOLLAR, c, t)
  {}

  lemma SpellsSome(b: int, args: seq<bytes>, c: int, t: bytes, k: nat)
    requires args != [] && k <= |t| && SpellsArg(b, args[0], t[..k]) && Spells(-1, args[1..], c, t[k..])
    ensures Spells(b, args, c, t)
  {}

  lemma SpellsFirst(b: int, args: seq<bytes>, c: int, t: bytes) returns (k: nat)
    requires args != [] && Spells(b, args, c, t)
    ensures k <= |t| && SpellsArg(b, args[0], t[..k]) && Spells(-1, args[1..], c, t[k..])
  {
    k :| 0 <= k <= |t| && SpellsArg(b, args[0], t[..k]) && Spells(-1, args[1..], c, t[k..]);
  }

  /** Reading on: what was read and what is read then. */
  lemma {:induction false} ReadOn(b: int, x: seq<bytes>, c: int, t: bytes, y: seq<bytes>, d: int, u: bytes)
    requires (c == -1 || c >= 0) && Spells(b, x, c, t) && Spells(c, y, d, u)
    ensures Spells(b, x + y, d, t + u)
    decreases |x|
  {
    hide Spells, SpellsArg, HeaderLine;
    if x != [] {
      var k := SpellsFirst(b, x, c, t);
      ReadOn(-1, x[1..], c, t[k..], y, d, u);
      assert (x + y)[0] == x[0] && (x + y)[1..] == x[1..] + y;
      assert (t + u)[..k] == t[..k] && (t + u)[k..] == t[k..] + u;
      SpellsSome(b, x + y, d, t + u, k);
    } else {
      assert x + y == y;
      SpellsNone(b, c, t);
      if b == c {
        assert t + u == u;
      } else if y == [] {
        SpellsNone(c, d, u);
        SpellsNone(b, d, t + u);
        assert t + u == t;
      } else {
        var k := SpellsFirst(c, y, d, u);
        KnownThenArg(c, y[0], t, u[..k]);
        assert (t + u)[..|t| + k] == t + u[..k] && (t + u)[|t| + k..] == u[k..];
        SpellsSome(b, y, d, t + u, |t| + k);
      }
    }
  }

  lemma BegunOn(n: nat, x: seq<bytes>, c: int, t: bytes, y: seq<bytes>, d: int, u: bytes)
    requires (c == -1 || c >= 0) && Begun(n, x, c, t) && Spells(c, y, d, u)
    ensures Begun(n, x + y, d, t + u)
  {
    hide Spells, HeaderLine;
    var k :| 0 <= k <= |t| && HeaderLine(STAR, n, t[..k]) && Spells(-1, x, c, t[k..]);
    ReadOn(-1, x, c, t[k..], y, d, u);
    assert (t + u)[..k] == t[..k] && (t + u)[k..] == t[k..] + u;
  }

  // ------------------------------------------------------- only one reading

  lemma TextBytes(v: int, k: nat)
    requires k < |Text(v)|
    ensures Text(v)[k] != CR && Text(v)[k] != 0
  {
    TextDigits(if v < 0 then -v else v);
    hide Dec;
  }

  /** Where the CR of a line is. */
  lemma LineEnd(c: u8, v: int, t: bytes, s: bytes, k: nat)
    requires HeaderLine(c, v, t) && t <= s && k < |t| - 1 && (c == STAR || c == DOLLAR)
    ensures |t| == |Text(v)| + 3 && s[|t| - 2] == CR
    ensures k < |t| - 2 ==> s[k] != CR && s[k] != 0
  {
    if 0 < k < |t| - 2 {
      TextBytes(v, k - 1);
      assert t[1..|t| - 2][k - 1] == t[k];
    }
    hide Text;
  }

  lemma HeaderUnique(c: u8, v: int, t: bytes, w: int, u: bytes, s: bytes)
    requires HeaderLine(c, v, t) && HeaderLine(c, w, u) && t <= s && u <= s && (c == STAR || c == DOLLAR)
    ensures v == w && t == u
  {
    LineEnd(c, v, t, s, if |u| < |t| then |u| - 2 else 0);
    LineEnd(c, w, u, s, if |t| < |u| then |t| - 2 else 0);
    assert |t| == |u|;
    assert t == s[..|t|] == u;
    hide Text;
    TextInjective(v, w);
  }

  lemma ArgUnique(a: bytes, t: bytes, b: bytes, u: bytes, s: bytes)
    requires SpellsArg(-1, a, t) && SpellsArg(-1, b, u) && t <= s && u <= s
    ensures a == b && t == u
  {
    var k :| 0 <= k <= |t| && HeaderLine(DOLLAR, |a|, t[..k]) && Body(a, t[k..]);
    var l :| 0 <= l <= |u| && HeaderLine(DOLLAR, |b|, u[..l]) && Body(b, u[l..]);
    hide HeaderLine;
    HeaderUnique(DOLLAR, |a|, t[..k], |b|, u[..l], s);
    assert k == l;
    assert a == s[k..k + |a|] == b;
    assert t == s[..|t|] == u;
  }

  lemma Parts(t: bytes, s: bytes, k: nat)
    requires t <= s && k <= |t|
    ensures t[..k] <= s && t[k..] <= s[k..] && t == t[..k] + t[k..] && t[..k] == s[..k]
  {}

  lemma FirstOf(x: seq<bytes>, n: nat)
    requires 0 < n <= |x|
    ensures x[..n] == [x[0]] + x[1..][..n - 1] && x == [x[0]] + x[1..]
  {}

  lemma LongerNow(b: int, t: bytes, a: bytes, u: bytes, s: bytes)
    requires Spells(-1, [], b, t) && SpellsArg(-1, a, u) && t <= s && u <= s
    ensures |t| <= |u| && SpellsArg(b, a, s[|t|..|u|])
  {
    SpellsNone(-1, b, t);
    hide Spells;
    if b == -1 {
      assert s[0..|u|] == u;
    } else {
      var l :| 0 <= l <= |u| && HeaderLine(DOLLAR, |a|, u[..l]) && Body(a, u[l..]);
      Parts(u, s, l);
      HeaderUnique(DOLLAR, b, t, |a|, u[..l], s);
      hide HeaderLine;
      assert u[l..] == s[|t|..|u|];
    }
  }

  /** A request of more arguments goes on with the next one where a begun one ends. */
  lemma {:induction false} SpellsLonger(x: seq<bytes>, b: int, t: bytes, y: seq<bytes>, u: bytes, s: bytes) returns (k: nat)
    requires Spells(-1, x, b, t) && Spells(-1, y, -1, u) && t <= s && u <= s && |x| < |y|
    ensures x == y[..|x|] && |t| <= k <= |s| && SpellsArg(b, y[|x|], s[|t|..k])
    decreases |x|
  {
    hide *;
    k := SpellsFirst(-1, y, -1, u);
    Parts(u, s, k);
    if x == [] {
      LongerNow(b, t, y[0], u[..k], s);
    } else {
      var l := SpellsFirst(-1, x, b, t);
      Parts(t, s, l);
      ArgUnique(x[0], t[..l], y[0], u[..k], s);
      var i := SpellsLonger(x[1..], b, t[l..], y[1..], u[l..], s[l..]);
      k := l + i;
      LaterPart(x, t, y, s, l, i);
    }
  }

  lemma LaterPart(x: seq<bytes>, t: bytes, y: seq<bytes>, s: bytes, l: nat, i: nat)
    requires 0 < |x| < |y| && x[0] == y[0] && x[1..] == y[1..][..|x| - 1]
    requires l <= |t| && t <= s && |t| - l <= i <= |s| - l
    ensures x == y[..|x|] && y[|x|] == y[1..][|x| - 1]
    ensures s[l..][|t[l..]|..i] == s[|t|..l + i]
  {
    FirstOf(x, |x|);
    FirstOf(y, |x|);
    assert forall j :: |t| - l <= j < i ==> s[l..][j] == s[l + j];
    assert s[l..][|t| - l..i] == s[|t|..l + i];
  }

  lemma {:induction false} SpellsUnique(x: seq<bytes>, t: bytes, y: seq<bytes>, u: bytes, s: bytes)
    requires Spells(-1, x, -1, t) && Spells(-1, y, -1, u) && t <= s && u <= s && |x| == |y|
    ensures x == y && t == u
    decreases |x|
  {
    if x == [] {
      SpellsNone(-1, -1, t);
      SpellsNone(-1, -1, u);
    } else {
      var k := SpellsFirst(-1, y, -1, u);
      var l := SpellsFirst(-1, x, -1, t);
      hide Spells, SpellsArg;
      Parts(t, s, l);
      Parts(u, s, k);
      ArgUnique(x[0], t[..l], y[0], u[..k], s);
      SpellsUnique(x[1..], t[l..], y[1..], u[l..], s[l..]);
      FirstOf(x, |x|);
      FirstOf(y, |y|);
    }
  }

  /** The count a request starts with. */
  lemma CountOf(r: Request) returns (v: int, k: nat)
    requires RequestOk(r)
    ensures k <= |r.text| && HeaderLine(STAR, v, r.text[..k])
    ensures if v <= 0 then r.cmd == [] && k == |r.text| else v == |r.cmd| && Spells(-1, r.cmd, -1, r.text[k..])
  {
    if r.cmd == [] {
      v :| v <= 0 && HeaderLine(STAR, v, r.text);
      k := |r.text|;
      assert r.text[..k] == r.text;
    } else {
      v := |r.cmd|;
      k :| 0 <= k <= |r.text| && HeaderLine(STAR, v, r.text[..k]) && Spells(-1, r.cmd, -1, r.text[k..]);
    }
  }

  /** Bytes start with at most one request. */
  lemma RequestUnique(r: Request, q: Request, s: bytes)
    requires RequestOk(r) && RequestOk(q) && r.text <= s && q.text <= s
    ensures r == q
  {
    var v, k := CountOf(r);
    var w, l := CountOf(q);
    hide *;
    Parts(r.text, s, k);
    Parts(q.text, s, l);
    HeaderUnique(STAR, v, r.text[..k], w, q.text[..l], s);
    if v > 0 {
      SpellsUnique(r.cmd, r.text[k..], q.cmd, q.text[l..], s[k..]);
    } else {
      assert r.text[..|r.text|] == r.text && q.text[..|q.text|] == q.text;
    }
  }

  lemma TextsTake(rs: seq<Request>, k: nat)
    requires k <= |rs|
    ensures Texts(rs[..k]) <= Texts(rs)
  {
    if k < |rs| {
      TextsTake(rs[..|rs| - 1], k);
      assert rs[..|rs| - 1][..k] == rs[..k];
    } else {
      assert rs[..k] == rs;
    }
  }

  /** Where the text of request n is. */
  lemma TextOf(rs: seq<Request>, n: nat, s: bytes)
    requires n < |rs| && AllOk(rs) && Texts(rs) <= s
    ensures AllOk(rs[..n]) && RequestOk(rs[n]) && Texts(rs[..n]) <= s && rs[n].text <= s[|Texts(rs[..n])|..]
  {
    hide RequestOk;
    TextsTake(rs, n + 1);
    var ps := rs[..n + 1];
    assert ps[..n] == rs[..n];
    assert Texts(ps) == Texts(rs[..n]) + rs[n].text;
  }

  /** Of two readings of the same bytes one is a part of the other. */
  lemma {:induction false} ReadingsAgree(rs: seq<Request>, qs: seq<Request>, s: bytes)
    requires AllOk(rs) && AllOk(qs) && Texts(rs) <= s && Texts(qs) <= s && |rs| <= |qs|
    ensures rs <= qs
  {
    hide *;
    if rs != [] {
      var n := |rs| - 1;
      TextOf(rs, n, s);
      TextOf(qs, n, s);
      ReadingsAgree(rs[..n], qs, s);
      assert qs[..n] == rs[..n];
      RequestUnique(rs[n], qs[n], s[|Texts(rs[..n])|..]);
      assert rs == rs[..n] + [rs[n]];
    }
  }
}
