// The decisions of lzf_compress (lzf_c.c) and the size they lead to: hashing,
// matching and room, apart from the bytes that are written.
module LzfSize {
  import opened Bytes
  import opened LzfFormat
  import opened Options

  const HSIZE: nat := 65536
  const MAX_LIT: nat := 32
  const MAX_OFF: nat := 8192
  const MAX_REF: nat := 264

  type u32 = x: int | 0 <= x < 0x1_0000_0000

  // ------------------------------------------------------------ hash and match

  /** Hash of the first two bytes, and with a third one shifted in. */
  function First(input: bytes, ip: nat): u32
    requires ip + 2 <= |input|
  {
    input[ip] as int * 256 + input[ip + 1]
  }

  function NextHash(v: u32, input: bytes, ip: nat): u32
    requires ip + 3 <= |input|
  {
    v % 16777216 * 256 + input[ip + 2]
  }

  function Idx(h: u32): (i: nat)
    ensures i < HSIZE
  {
    (h / 256 - h * 5) % HSIZE
  }

  /** The tests that make a table slot a usable match, in source order. */
  predicate IsMatch(input: bytes, ref: nat, ip: nat)
    requires ip + 3 <= |input|
  {
    && 0 <= ip - ref - 1 < MAX_OFF  // unsigned: a negative distance is huge
    && ref > 0
    && input[ref + 2] == input[ip + 2]
    && input[ref] == input[ip] && input[ref + 1] == input[ip + 1]
  }

  /** How far the search for a match's end may go: the unrolled steps pass a
      maximum of 17 or 18. */
  function Limit(total: nat, ip: nat): (limit: nat)
    requires ip + 3 <= total
    ensures ip + limit <= total && 1 <= limit <= MAX_REF
  {
    var maxlen := if total - ip - 2 > MAX_REF then MAX_REF else total - ip - 2;
    if 16 < maxlen < 19 then 19 else maxlen
  }

  function Extent(input: bytes, ref: nat, ip: nat, len: nat, limit: nat): (r: nat)
    requires ref < ip && ip + limit <= |input|
    ensures r >= len
    decreases limit - len
  {
    if len < limit && input[ref + len] == input[ip + len] then Extent(input, ref, ip, len + 1, limit) else len
  }

  /** All bytes up to there agree, and there the limit is met or two bytes differ. */
  lemma {:induction false} ExtentFacts(input: bytes, ref: nat, ip: nat, len: nat, limit: nat)
    requires ref < ip && len <= limit && ip + limit <= |input|
    ensures var r := Extent(input, ref, ip, len, limit);
            && r <= limit && (r < limit ==> input[ref + r] != input[ip + r])
            && forall k :: ip + len <= k < ip + r ==> input[k] == input[k - (ip - ref)]
    decreases limit - len
  {
    if len < limit && input[ref + len] == input[ip + len] { ExtentFacts(input, ref, ip, len + 1, limit); }
  }

  /** The length of a match of three bytes or more. */
  function MatchLen(input: bytes, ref: nat, ip: nat): (len: nat)
    requires ip + 3 <= |input| && ref < ip
    ensures len >= 3
  {
    Extent(input, ref, ip, 3, Limit(|input|, ip))
  }

  lemma MatchLenFits(input: bytes, ref: nat, ip: nat)
    requires ip + 3 <= |input| && IsMatch(input, ref, ip)
    ensures MatchLen(input, ref, ip) <= MAX_REF && Matches(input, ref, ip, MatchLen(input, ref, ip))
  {
    assert forall k :: ip <= k < ip + 3 ==> input[k] == input[k - (ip - ref)];
    if Limit(|input|, ip) >= 3 { ExtentFacts(input, ref, ip, 3, Limit(|input|, ip)); }
  }

  /** A match ends at the limit, near the end of the input or at a difference. */
  lemma MatchLenEnds(input: bytes, ref: nat, ip: nat)
    requires ip + 3 <= |input| && IsMatch(input, ref, ip)
    ensures var len := MatchLen(input, ref, ip);
            len == MAX_REF || len + 2 >= |input| - ip || input[ref + len] != input[ip + len]
  {
    if Limit(|input|, ip) >= 3 { ExtentFacts(input, ref, ip, 3, Limit(|input|, ip)); }
  }

  // --------------------------------------------------------------------- steps

  /** The variables of the compression loop. */
  datatype Scan = Scan(htab: seq<u32>, hval: u32, ip: nat, op: nat, lit: nat) {
    predicate Ok(total: nat) { |htab| == HSIZE && ip <= total < U32 && lit < MAX_LIT }
  }

  /** After a match: index the last two positions it covered. */
  function Reindex(htab: seq<u32>, input: bytes, ip: nat): (r: (seq<u32>, u32))
    requires |htab| == HSIZE && 2 <= ip && ip + 3 <= |input| < U32
    ensures |r.0| == HSIZE
  {
    var h0 := NextHash(First(input, ip - 2), input, ip - 2);
    var h1 := NextHash(h0, input, ip - 1);
    (htab[Idx(h0) := ip - 2][Idx(h1) := ip - 1], h1)
  }

  /** Where the output goes on after a back reference of len bytes. */
  function AfterRef(op: nat, lit: nat, len: nat): nat
    requires op >= 1
  {
    (if lit == 0 then op - 1 else op) + (if len < 9 then 2 else 3) + 1
  }

  /** The slot for the bytes at ip, after they replaced what it holds. */
  function Probe(input: bytes, s: Scan): (r: (nat, seq<u32>, u32))
    requires s.Ok(|input|) && s.ip + 3 <= |input|
    ensures |r.1| == HSIZE
  {
    var h := NextHash(s.hval, input, s.ip);
    (s.htab[Idx(h)], s.htab[Idx(h) := s.ip], h)
  }

  function AfterMatch(input: bytes, s: Scan): (t: Scan)
    requires s.Ok(|input|) && s.op >= 1 && s.ip + 3 <= |input| && IsMatch(input, Probe(input, s).0, s.ip)
    ensures t.Ok(|input|) && t.ip >= s.ip + 3 && t.op >= 1
  {
    var p := Probe(input, s);
    MatchLenFits(input, p.0, s.ip);
    var len := MatchLen(input, p.0, s.ip);
    var ip := s.ip + len;
    var r := if ip + 2 >= |input| then (p.1, p.2) else Reindex(p.1, input, ip);
    Scan(r.0, r.1, ip, AfterRef(s.op, s.lit, len), 0)
  }

  function AfterLiteral(input: bytes, s: Scan): (t: Scan)
    requires s.Ok(|input|) && s.ip + 3 <= |input|
    ensures t.Ok(|input|) && t.ip == s.ip + 1 && t.op > s.op
  {
    var p := Probe(input, s);
    if s.lit + 1 == MAX_LIT then Scan(p.1, p.2, s.ip + 1, s.op + 2, 0) else Scan(p.1, p.2, s.ip + 1, s.op + 1, s.lit + 1)
  }

  /** What the last rest bytes and the end of the run add to the output. */
  function RestSize(lit: nat, rest: nat): int {
    rest + (if lit + rest == 0 then -1 else if lit + rest > MAX_LIT then 1 else 0)
  }

  /** The state after one turn of the loop, unless the room does not suffice. */
  function Turn(input: bytes, cap: nat, s: Scan): (r: Option<Scan>)
    requires s.Ok(|input|) && s.op >= 1 && s.ip + 3 <= |input|
    ensures r.Some? ==> r.value.Ok(|input|) && r.value.op >= 1 && r.value.ip > s.ip
  {
    if IsMatch(input, Probe(input, s).0, s.ip) then
      if s.op - (if s.lit == 0 then 1 else 0) + 3 + 1 >= cap then None else Some(AfterMatch(input, s))
    else
      if s.op >= cap then None else Some(AfterLiteral(input, s))
  }

  /** The result from a state on, with cap bytes of room. */
  function Size(input: bytes, cap: nat, s: Scan): int
    requires s.Ok(|input|) && s.op >= 1
    decreases |input| - s.ip
  {
    if s.ip + 2 >= |input| then
      if s.op + 3 > cap then 0 else s.op + RestSize(s.lit, |input| - s.ip)
    else
      match Turn(input, cap, s)
      case None => 0
      case Some(t) => Size(input, cap, t)
  }

  lemma SizeStep(input: bytes, cap: nat, s: Scan)
    requires s.Ok(|input|) && s.op >= 1 && s.ip + 3 <= |input|
    ensures Size(input, cap, s) == match Turn(input, cap, s) case None => 0 case Some(t) => Size(input, cap, t)
  {
    hide Turn;
  }

  lemma SizeEnd(input: bytes, cap: nat, s: Scan)
    requires s.Ok(|input|) && s.op >= 1 && s.ip + 2 >= |input|
    ensures Size(input, cap, s) == if s.op + 3 > cap then 0 else s.op + RestSize(s.lit, |input| - s.ip)
  {}

  predicate Compressible(input: bytes, stack: seq<u32>) {
    |input| != 1 && |input| < U32 && |stack| == HSIZE
  }

  function Start(input: bytes, stack: seq<u32>): Scan
    requires Compressible(input, stack) && input != []
  {
    Scan(stack, First(input, 0), 0, 1, 0)
  }

  /** The result of lzf_compress for a table that starts as stack. */
  function SizeOf(input: bytes, cap: nat, stack: seq<u32>): int
    requires Compressible(input, stack)
  {
    if |input| == 0 || cap == 0 then 0 else Size(input, cap, Start(input, stack))
  }

  // --------------------------------------------------------------------- bound

  /** The finished stream is at most 33/32 of the input it stands for: a full
      run of literals reaches this, every back reference stays below it. */
  predicate Small(s: Scan) {
    s.lit <= s.ip && s.lit + 1 <= s.op && 32 * (s.op - s.lit - 1) <= 33 * (s.ip - s.lit) && (s.op == 1 ==> s.ip == 0)
  }

  lemma SmallLiteral(input: bytes, s: Scan)
    requires s.Ok(|input|) && s.ip + 3 <= |input| && Small(s)
    ensures Small(AfterLiteral(input, s))
  {
    hide NextHash, Idx;
  }

  lemma SmallMatch(input: bytes, s: Scan)
    requires s.Ok(|input|) && s.op >= 1 && s.ip + 3 <= |input| && IsMatch(input, Probe(input, s).0, s.ip) && Small(s)
    ensures Small(AfterMatch(input, s))
  {
    hide NextHash, Idx, Reindex, Extent, Limit, IsMatch;
  }

  /** One control byte for every 32 bytes of input, rounded up. */
  function Ceil32(n: nat): nat { (n + 31) / 32 }

  lemma SmallEnd(s: Scan, total: nat)
    requires Small(s) && s.lit < MAX_LIT && s.ip <= total <= s.ip + 2 && total > 0
    ensures 0 < s.op + RestSize(s.lit, total - s.ip) <= total + Ceil32(total)
    ensures 32 * (s.op + 3) <= 33 * total + 128
  {}

  lemma {:induction false} SizeBound(input: bytes, cap: nat, s: Scan)
    requires s.Ok(|input|) && s.op >= 1 && Small(s) && input != []
    ensures 0 <= Size(input, cap, s) <= |input| + Ceil32(|input|)
    ensures 32 * cap >= 33 * |input| + 128 ==> Size(input, cap, s) > 0
    decreases |input| - s.ip
  {
    hide Probe, AfterMatch, AfterLiteral, IsMatch, Ceil32, RestSize;
    if s.ip + 2 >= |input| {
      SmallEnd(s, |input|);
    } else if IsMatch(input, Probe(input, s).0, s.ip) {
      SmallMatch(input, s);
      SizeBound(input, cap, AfterMatch(input, s));
    } else {
      SmallLiteral(input, s);
      SizeBound(input, cap, AfterLiteral(input, s));
    }
  }

  // ------------------------------------------------------------ reached bound

  predicate SameThree(input: bytes, i: nat, j: nat)
    requires i + 2 < |input| && j + 2 < |input|
  {
    input[i] == input[j] && input[i + 1] == input[j + 1] && input[i + 2] == input[j + 2]
  }

  /** No three bytes occur twice. */
  ghost predicate Fresh(input: bytes) {
    forall i, j :: 0 <= i < j && j + 2 < |input| ==> !SameThree(input, i, j)
  }

  /** Only literals so far. */
  predicate Literal(s: Scan) {
    s.lit <= s.ip && s.lit < MAX_LIT && (s.ip - s.lit) % 32 == 0 && s.op == s.ip + (s.ip - s.lit) / 32 + 1
  }

  lemma NoMatch(input: bytes, s: Scan)
    requires s.Ok(|input|) && s.ip + 3 <= |input| && Fresh(input)
    ensures !IsMatch(input, Probe(input, s).0, s.ip)
  {
    hide NextHash, Idx, Probe;
    var ref := Probe(input, s).0;
    assert IsMatch(input, ref, s.ip) && 0 <= ref < s.ip ==> SameThree(input, ref, s.ip);
  }

  lemma LiteralStep(input: bytes, s: Scan)
    requires s.Ok(|input|) && s.ip + 3 <= |input| && Literal(s)
    ensures Literal(AfterLiteral(input, s))
  {
    hide NextHash, Idx;
  }

  lemma LiteralEnd(s: Scan, total: nat)
    requires Literal(s) && s.ip <= total <= s.ip + 2 && total > 0
    ensures s.op + RestSize(s.lit, total - s.ip) == total + Ceil32(total)
  {}

  lemma LiteralRoom(s: Scan, total: nat, cap: nat)
    requires Literal(s) && s.ip <= total && 32 * cap >= 33 * total + 128
    ensures s.op + 3 <= cap
  {}

  lemma {:induction false} FreshSize(input: bytes, cap: nat, s: Scan)
    requires s.Ok(|input|) && s.op >= 1 && Literal(s) && input != [] && Fresh(input) && 32 * cap >= 33 * |input| + 128
    ensures Size(input, cap, s) == |input| + Ceil32(|input|)
    decreases |input| - s.ip
  {
    hide Probe, AfterMatch, AfterLiteral, IsMatch, Ceil32, RestSize, Literal, Fresh;
    LiteralRoom(s, |input|, cap);
    if s.ip + 2 >= |input| {
      LiteralEnd(s, |input|);
    } else {
      NoMatch(input, s);
      LiteralStep(input, s);
      LiteralOp(AfterLiteral(input, s));
      FreshSize(input, cap, AfterLiteral(input, s));
    }
  }

  lemma LiteralOp(s: Scan)
    requires Literal(s)
    ensures s.op >= 1
  {}

  /** Bytes 0, 1, 2 and so on. */
  function Counting(n: nat): (input: bytes)
    requires n <= 256
    ensures |input| == n
  {
    seq(n, i requires 0 <= i < n => i)
  }

  lemma CountingIsFresh(n: nat)
    requires n <= 256
    ensures Fresh(Counting(n))
  {}

  // --------------------------------------------------------------- 104 percent

  /** Every result for an input of this length is below 104 percent of it. */
  ghost predicate Below104(total: nat)
    requires 2 <= total < U32
  {
    forall input, cap, stack :: |input| == total && |stack| == HSIZE ==> 100 * SizeOf(input, cap, stack) < 104 * total
  }

  lemma SizeOfBound(input: bytes, cap: nat, stack: seq<u32>)
    requires Compressible(input, stack)
    ensures 0 <= SizeOf(input, cap, stack) <= |input| + Ceil32(|input|)
    ensures input != [] && 32 * cap >= 33 * |input| + 128 ==> SizeOf(input, cap, stack) > 0
  {
    hide Size, Ceil32;
    if input != [] && cap > 0 { SizeBound(input, cap, Start(input, stack)); }
  }

  lemma SizeOfFresh(input: bytes, cap: nat, stack: seq<u32>)
    requires Compressible(input, stack) && input != [] && Fresh(input) && 32 * cap >= 33 * |input| + 128
    ensures SizeOf(input, cap, stack) == |input| + Ceil32(|input|)
  {
    hide Size, Ceil32, Fresh;
    FreshSize(input, cap, Start(input, stack));
  }

  /** The documented limit holds for a length if and only if its control bytes
      are under a 25th of it. */
  lemma Below104Iff(total: nat)
    requires 2 <= total < U32
    ensures Below104(total) <==> 25 * Ceil32(total) < total
  {
    hide SizeOf, Fresh;
    if 25 * Ceil32(total) < total {
      forall input: bytes, cap: nat, stack: seq<u32> | |input| == total && |stack| == HSIZE
        ensures 100 * SizeOf(input, cap, stack) < 104 * total
      {
        SizeOfBound(input, cap, stack);
      }
    } else {
      var input, cap, stack: seq<u32> := Counting(total), 2 * total + 4, seq(HSIZE, _ => 0);
      CountingIsFresh(total);
      SizeOfFresh(input, cap, stack);
      assert 100 * SizeOf(input, cap, stack) >= 104 * total;
    }
  }
}
