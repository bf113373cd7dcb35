// lzf_compress (lzf_c.c), VERY_FAST, HLOG 16, with INIT_HTAB 0: the hash
// table starts with whatever the stack held.
module LzfCompress {
  import opened Bytes
  import opened LzfFormat
  import opened LzfSize
  import opened LzfTable
  import opened Options

  // ------------------------------------------------------- the open output

  /** The state between two input bytes: a finished stream up to the control
      byte of the current literal run, then the lit bytes of that run. */
  ghost predicate Open(input: bytes, o: bytes, ip: nat, op: nat, lit: nat) {
    && lit <= ip <= |input| && lit + 1 <= op && op - lit - 1 <= |o|
    && (lit > 0 ==> op <= |o| && o[op - lit..op] == input[ip - lit..ip])
    && Decodes(o[..op - lit - 1], input[..ip - lit], |input|)
  }

  /** The state with no run open. */
  ghost predicate Closed(input: bytes, o: bytes, ip: nat, op: nat) {
    ip <= |input| && op <= |o| && Decodes(o[..op], input[..ip], |input|)
  }

  lemma StartRun(input: bytes, o: bytes, ip: nat, op: nat)
    requires Closed(input, o, ip, op)
    ensures Open(input, o, ip, op + 1, 0)
  {}

  /** op[-lit-1] = lit-1, then drop the control byte of an empty run. */
  method StopRun(out: array<u8>, op: nat, lit: nat, ghost input: bytes, ghost ip: nat) returns (op': nat)
    requires Open(input, out[..], ip, op, lit) && lit <= MAX_LIT && op - lit - 1 < out.Length
    modifies out
    ensures op' == (if lit == 0 then op - 1 else op)
    ensures Closed(input, out[..], ip, op')
  {
    hide Decodes;
    ghost var o, c := out[..], op - lit - 1;
    out[op - lit - 1] := (lit - 1) % 256;
    op' := if lit == 0 then op - 1 else op;
    if lit > 0 {
      AppendLiteral(o[..c], input[..ip - lit], input[ip - lit..ip], |input|);
      assert out[..op] == o[..c] + ([lit - 1] + input[ip - lit..ip]) by {
        assert out[op - lit..op] == o[op - lit..op];
      }
      assert input[..ip - lit] + input[ip - lit..ip] == input[..ip];
    } else {
      assert out[..op'] == o[..c];
    }
  }

  /** One more literal byte; a full run is stopped and a new one started. */
  method PutLiteral(out: array<u8>, op: nat, lit: nat, input: bytes, ip: nat) returns (op': nat, lit': nat)
    requires Open(input, out[..], ip, op, lit) && lit < MAX_LIT && op < out.Length && ip < |input|
    modifies out
    ensures Open(input, out[..], ip + 1, op', lit')
    ensures if lit + 1 == MAX_LIT then lit' == 0 && op' == op + 2 else lit' == lit + 1 && op' == op + 1
  {
    hide Decodes;
    ghost var o := out[..];
    out[op] := input[ip];
    op', lit' := op + 1, lit + 1;
    assert out[..op' - lit' - 1] == o[..op - lit - 1];
    assert out[op' - lit'..op'] == o[op - lit..op] + [input[ip]];
    assert input[ip + 1 - lit'..ip + 1] == input[ip - lit..ip] + [input[ip]];
    if lit' == MAX_LIT {
      op' := StopRun(out, op', lit', input, ip + 1);
      StartRun(input, out[..], ip + 1, op');
      lit', op' := 0, op' + 1;
    }
  }

  /** Write a back reference of len bytes at distance off + 1. */
  method PutRef(out: array<u8>, op: nat, off: nat, len: nat, ghost input: bytes, ghost ip: nat, ghost ref: nat)
    returns (op': nat)
    requires Closed(input, out[..], ip, op) && op + 3 < out.Length
    requires off < MAX_OFF && 3 <= len <= MAX_REF && ip == ref + off + 1 && Matches(input, ref, ip, len)
    modifies out
    ensures op' == op + (if len < 9 then 2 else 3) && Closed(input, out[..], ip + len, op')
  {
    hide Decodes, Copy;
    ghost var o := out[..];
    var l := len - 2;
    op' := op;
    if l < 7 {
      out[op'] := off / 256 + l * 32;
      op' := op' + 1;
    } else {
      out[op'] := off / 256 + 7 * 32;
      op' := op' + 1;
      out[op'] := l - 7;
      op' := op' + 1;
    }
    out[op'] := off % 256;
    op' := op' + 1;
    assert out[..op'] == o[..op] + RefToken(off, len);
    AppendRef(o[..op], input[..ip], off, len, |input|);
    CopyMatches(input, ip, ref, len);
  }

  /** How far the match at ref extends. */
  method MatchLength(input: bytes, ref: nat, ip: nat) returns (len: nat)
    requires ip + 3 <= |input| && IsMatch(input, ref, ip)
    ensures len == MatchLen(input, ref, ip)
  {
    hide Extent;
    len := 2;
    var maxlen := |input| - ip - len;
    maxlen := if maxlen > MAX_REF then MAX_REF else maxlen;
    ghost var limit := Limit(|input|, ip);
    if maxlen > 16 {
      // sixteen unrolled steps
      for step := 0 to 16
        invariant len == 2 + step && Extent(input, ref, ip, len + 1, limit) == MatchLen(input, ref, ip)
      {
        len := len + 1;
        ExtentStep(input, ref, ip, len, limit);
        if input[ref + len] != input[ip + len] { return; }
      }
    }
    len := len + 1;
    while len < maxlen && input[ref + len] == input[ip + len]
      invariant (len == 3 || len <= limit) && Extent(input, ref, ip, len, limit) == MatchLen(input, ref, ip)
      decreases maxlen - len
    {
      ExtentStep(input, ref, ip, len, limit);
      len := len + 1;
    }
    ExtentStep(input, ref, ip, len, limit);
  }

  lemma ExtentStep(input: bytes, ref: nat, ip: nat, len: nat, limit: nat)
    requires ref < ip && ip + limit <= |input|
    ensures Extent(input, ref, ip, len, limit) ==
            if len < limit && input[ref + len] == input[ip + len] then Extent(input, ref, ip, len + 1, limit) else len
  {}

  /** The remaining bytes go out as literals; at most three bytes can be missing. */
  method PutRest(out: array<u8>, op0: nat, lit0: nat, input: bytes, ip0: nat) returns (n: nat)
    requires Open(input, out[..], ip0, op0, lit0) && lit0 < MAX_LIT && ip0 <= |input| <= ip0 + 2
    modifies out
    ensures n <= out.Length && (n > 0 ==> Closed(input, out[..], |input|, n))
    ensures n == if op0 + 3 > out.Length then 0 else op0 + RestSize(lit0, |input| - ip0)
  {
    hide Closed, Decodes;
    if op0 + 3 > out.Length { return 0; }
    var ip, op, lit := ip0, op0, lit0;
    while ip < |input|
      invariant ip0 <= ip <= |input| && Open(input, out[..], ip, op, lit)
      invariant if lit0 + (ip - ip0) < MAX_LIT then lit == lit0 + (ip - ip0) && op == op0 + (ip - ip0)
                else lit == lit0 + (ip - ip0) - MAX_LIT && op == op0 + (ip - ip0) + 1
      decreases |input| - ip
    {
      op, lit := PutLiteral(out, op, lit, input, ip);
      ip := ip + 1;
    }
    n := StopRun(out, op, lit, input, ip);
  }

  /** A match at ref: stop the run, refer back, start the next run. */
  method PutMatch(out: array<u8>, op0: nat, lit: nat, input: bytes, ip0: nat, ref: nat) returns (op: nat, ip: nat)
    requires Open(input, out[..], ip0, op0, lit) && lit < MAX_LIT && op0 >= 1
    requires ip0 + 3 <= |input| && IsMatch(input, ref, ip0)
    requires op0 - (if lit == 0 then 1 else 0) + 3 + 1 < out.Length
    modifies out
    ensures Open(input, out[..], ip, op, 0) && ip <= |input|
    ensures ip == ip0 + MatchLen(input, ref, ip0) && op == AfterRef(op0, lit, MatchLen(input, ref, ip0))
  {
    OpenBounds(input, out[..], ip0, op0, lit);
    hide Open, Closed, Decodes, Matches, MatchLen;
    var off := ip0 - ref - 1;
    op := StopRun(out, op0, lit, input, ip0);
    MatchLenFits(input, ref, ip0);
    var len := MatchLength(input, ref, ip0);
    MatchFits(input, ref, ip0, len);
    op := PutRef(out, op, off, len, input, ip0, ref);
    ip := ip0 + len;
    StartRun(input, out[..], ip, op);
    op := op + 1;
  }

  lemma OpenBounds(input: bytes, o: bytes, ip: nat, op: nat, lit: nat)
    requires Open(input, o, ip, op, lit)
    ensures lit + 1 <= op
  {}

  /** One turn of the loop: a match or a literal, or no room. */
  method MakeTurn(input: bytes, out: array<u8>, s: Scan) returns (going: bool, t: Scan)
    requires s.Ok(|input|) && s.op >= 1 && s.ip + 3 <= |input| && Open(input, out[..], s.ip, s.op, s.lit)
    modifies out
    ensures Turn(input, out.Length, s) == if going then Some(t) else None
    ensures going ==> Open(input, out[..], t.ip, t.op, t.lit)
  {
    hide Open, First, NextHash, Idx, Reindex, MatchLen, AfterRef, IsMatch;
    var hval := NextHash(s.hval, input, s.ip);
    var slot := Idx(hval);
    var ref := s.htab[slot];
    var htab := s.htab[slot := s.ip];
    var op, ip, lit := s.op, s.ip, s.lit;
    t := s;
    if IsMatch(input, ref, ip) {
      if op + 3 + 1 >= out.Length {
        if op - (if lit == 0 then 1 else 0) + 3 + 1 >= out.Length { return false, s; }
      }
      op, ip := PutMatch(out, op, lit, input, ip, ref);
      lit := 0;
      if ip + 2 < |input| {
        var r := Reindex(htab, input, ip);
        htab, hval := r.0, r.1;
      }
    } else {
      if op >= out.Length { return false, s; }
      op, lit := PutLiteral(out, op, lit, input, ip);
      ip := ip + 1;
    }
    return true, Scan(htab, hval, ip, op, lit);
  }

  /** Whatever the table held at the start, a result decodes to the input. */
  method Compress(input: bytes, out: array<u8>, stack: seq<u32>) returns (n: nat)
    requires Compressible(input, stack)
    modifies out
    ensures n <= out.Length && n == SizeOf(input, out.Length, stack)
    ensures n > 0 ==> Decode(out[..n], 0, [], |input|) == Out(input)
    ensures n <= |input| + Ceil32(|input|)
    ensures |input| > 0 && 32 * out.Length >= 33 * |input| + 128 ==> n > 0
    ensures AllEqual(input) && |input| >= 2 && out.Length >= 14 + 3 * ((|input| + 263) / 264) ==>
              0 < n <= 10 + 3 * ((|input| + 263) / 264)
    ensures forall cap: nat :: out.Length >= SizeOf(input, cap, stack) + 4 && SizeOf(input, cap, stack) > 0 ==>
              n == SizeOf(input, cap, stack)
  {
    SizeOfBound(input, out.Length, stack);
    AnyRoom(input, out.Length, stack);
    if AllEqual(input) && |input| >= 2 && out.Length >= 14 + 3 * Ceil264(|input|) { EqualBytesSize(input, out.Length, stack); }
    hide SizeOf, AllEqual, Open, Closed, Decodes, Decode, First, Turn, Size, Ceil32, RestSize;
    if |input| == 0 || out.Length == 0 { return 0; }
    OpenStart(input, out[..]);
    var s := Scan(stack, First(input, 0), 0, 1, 0);
    while s.ip + 2 < |input|
      invariant s.Ok(|input|) && s.op >= 1 && Open(input, out[..], s.ip, s.op, s.lit)
      invariant Size(input, out.Length, s) == SizeOf(input, out.Length, stack)
      decreases |input| - s.ip
    {
      SizeStep(input, out.Length, s);
      var going, t := MakeTurn(input, out, s);
      if !going { return 0; }
      s := t;
    }
    SizeEnd(input, out.Length, s);
    n := PutRest(out, s.op, s.lit, input, s.ip);
    if n > 0 { ClosedMeans(input, out[..], n); }
  }

  lemma OpenStart(input: bytes, o: bytes)
    ensures Open(input, o, 0, 1, 0)
  {
    assert o[..0] == [] && input[..0] == [];
  }

  lemma MatchFits(input: bytes, ref: nat, ip: nat, len: nat)
    requires Matches(input, ref, ip, len)
    ensures ip + len <= |input|
  {}

  lemma ClosedMeans(input: bytes, o: bytes, n: nat)
    requires Closed(input, o, |input|, n)
    ensures n <= |o| && Decode(o[..n], 0, [], |input|) == Out(input)
  {
    assert input[..|input|] == input;
  }
}
