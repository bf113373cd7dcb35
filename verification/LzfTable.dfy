// What the hash table of lzf_compress (lzf_c.c) holds and what comes of it:
// repeated bytes are referred back to, and runs become short.
module LzfTable {
  import opened Bytes
  import opened Options
  import opened LzfFormat
  import opened LzfSize

  // ---------------------------------------------------------------- the slots

  /** The three bytes at p as a number. */
  function Three(input: bytes, p: nat): (h: u32)
    requires p + 2 < |input|
    ensures h < 16777216
  {
    input[p] as int * 65536 + input[p + 1] as int * 256 + input[p + 2]
  }

  /** The slot of the three bytes at p. */
  function Slot(input: bytes, p: nat): (i: nat)
    requires p + 2 < |input|
    ensures i < HSIZE
  {
    Idx(Three(input, p))
  }

  /** Whatever was shifted through the hash before, only three bytes count. */
  lemma IdxLow(h: u32, a: nat, t: nat)
    requires h == a * 16777216 + t && t < 16777216
    ensures Idx(h) == Idx(t)
  {
    assert h / 256 == a * 65536 + t / 256;
    var x, y := t / 256 - t * 5, a - 5 * a * 256;
    assert h / 256 - h * 5 == x + y * 65536;
    SameRest(x, y);
  }

  lemma SameRest(x: int, y: int)
    ensures (x + y * 65536) % 65536 == x % 65536
  {}

  /** Three bytes that differ from others in one place only have another slot. */
  lemma SlotsApart(a: u8, b: u8, c: u8, x: u8)
    ensures x != a ==> Idx(a as int * 65536 + b as int * 256 + c) != Idx(x as int * 65536 + b as int * 256 + c)
    ensures x != b ==> Idx(a as int * 65536 + b as int * 256 + c) != Idx(a as int * 65536 + x as int * 256 + c)
    ensures x != c ==> Idx(a as int * 65536 + b as int * 256 + c) != Idx(a as int * 65536 + b as int * 256 + x)
  {
    hide Idx;
    SlotValue(a, b, c);
    SlotValue(x, b, c);
    SlotValue(a, x, c);
    SlotValue(a, b, x);
    var v := a as int * 256 - 1279 * b as int - 5 * c as int;
    Apart(v, 256 * (x as int - a as int), x as int - a as int);
    Apart(v, -1279 * (x as int - b as int), x as int - b as int);
    Apart(v, -5 * (x as int - c as int), x as int - c as int);
  }

  lemma Apart(v: int, d: int, k: int)
    requires -255 <= k <= 255 && (d == 256 * k || d == -1279 * k || d == -5 * k)
    ensures (v + d) % 65536 == v % 65536 ==> d == 0
  {
    if (v + d) % 65536 == v % 65536 {
      var q := (v + d) / 65536 - v / 65536;
      assert d == 65536 * q;
    }
  }

  lemma SlotValue(a: u8, b: u8, c: u8)
    ensures Idx(a as int * 65536 + b as int * 256 + c) == (a as int * 256 - 1279 * b as int - 5 * c as int) % 65536
  {
    var h := a as int * 65536 + b as int * 256 + c as int;
    assert h / 256 == a as int * 256 + b;
    var x := a as int * 256 - 1279 * b as int - 5 * c as int;
    assert h / 256 - h * 5 == x + (-5 * a as int) * 65536;
    SameRest(x, -5 * a as int);
  }

  // ---------------------------------------------------------------- the table

  /** The hash holds the two bytes at the position, if they are there. */
  predicate Rolled(input: bytes, s: Scan) {
    s.ip + 2 < |input| ==> s.hval % 65536 == input[s.ip] as int * 256 + input[s.ip + 1]
  }

  lemma Rolling(v: u32, input: bytes, ip: nat)
    requires ip + 3 <= |input| && v % 65536 == input[ip] as int * 256 + input[ip + 1]
    ensures Idx(NextHash(v, input, ip)) == Slot(input, ip)
    ensures NextHash(v, input, ip) % 65536 == input[ip + 1] as int * 256 + input[ip + 2]
  {
    var a := v % 16777216 / 65536;
    assert v % 16777216 == a * 65536 + v % 65536;
    IdxLow(NextHash(v, input, ip), a, Three(input, ip));
  }

  /** The positions that a turn of the loop puts into the table. */
  function Used(input: bytes, s: Scan): (r: seq<nat>)
    requires s.Ok(|input|) && s.op >= 1 && s.ip + 3 <= |input|
    ensures forall k :: 0 <= k < |r| ==> r[k] + 2 < |input|
  {
    if IsMatch(input, Probe(input, s).0, s.ip) then
      var e := AfterMatch(input, s).ip;
      if e + 2 < |input| then [s.ip, e - 2, e - 1] else [s.ip]
    else [s.ip]
  }

  ghost predicate Positions(input: bytes, log: seq<nat>) {
    forall k :: 0 <= k < |log| ==> log[k] + 2 < |input|
  }

  /** Slot i after the uses in the log: the last position with this slot. */
  ghost function LastUse(input: bytes, stack: seq<u32>, log: seq<nat>, i: nat): nat
    requires Positions(input, log) && i < |stack|
  {
    if log == [] then stack[i]
    else
      var n := |log| - 1;
      if Slot(input, log[n]) == i then log[n] else LastUse(input, stack, log[..n], i)
  }

  ghost predicate Meant(input: bytes, stack: seq<u32>, log: seq<nat>, htab: seq<u32>) {
    && Positions(input, log) && |stack| == |htab| == HSIZE
    && forall i :: 0 <= i < HSIZE ==> htab[i] == LastUse(input, stack, log, i)
  }

  lemma OneUse(input: bytes, stack: seq<u32>, log: seq<nat>, htab: seq<u32>, p: u32)
    requires Meant(input, stack, log, htab) && p + 2 < |input|
    ensures Meant(input, stack, log + [p], htab[Slot(input, p) := p])
  {
    var l := log + [p];
    assert l[..|l| - 1] == log;
    hide Slot;
  }

  lemma ProbeKeeps(input: bytes, stack: seq<u32>, log: seq<nat>, s: Scan)
    requires s.Ok(|input|) && s.ip + 3 <= |input| && Meant(input, stack, log, s.htab) && Rolled(input, s)
    ensures var p := Probe(input, s);
            && p.0 == LastUse(input, stack, log, Slot(input, s.ip)) && Meant(input, stack, log + [s.ip], p.1)
            && p.2 % 65536 == input[s.ip + 1] as int * 256 + input[s.ip + 2]
  {
    Rolling(s.hval, input, s.ip);
    hide NextHash, Slot, LastUse;
    OneUse(input, stack, log, s.htab, s.ip);
  }

  lemma MatchKeeps(input: bytes, stack: seq<u32>, log: seq<nat>, s: Scan)
    requires s.Ok(|input|) && s.op >= 1 && s.ip + 3 <= |input| && IsMatch(input, Probe(input, s).0, s.ip)
    requires Meant(input, stack, log, s.htab) && Rolled(input, s)
    ensures var t := AfterMatch(input, s); Meant(input, stack, log + Used(input, s), t.htab) && Rolled(input, t)
  {
    ProbeKeeps(input, stack, log, s);
    hide Probe, Meant, IsMatch, MatchLen, Reindex, AfterRef;
    var p := Probe(input, s);
    var e := AfterMatch(input, s).ip;
    if e + 2 < |input| {
      MeantSize(input, stack, log + [s.ip], p.1);
      ReindexKeeps(input, stack, log + [s.ip], p.1, e);
      ThreeMore(log, s.ip, e);
    }
  }

  lemma ThreeMore(log: seq<nat>, p: nat, e: nat)
    requires e >= 2
    ensures log + [p] + [e - 2] + [e - 1] == log + [p, e - 2, e - 1]
  {}

  /** A turn enters its position and, after a match, the last two it covered. */
  lemma TurnKeeps(input: bytes, stack: seq<u32>, log: seq<nat>, cap: nat, s: Scan, t: Scan)
    requires s.Ok(|input|) && s.op >= 1 && s.ip + 3 <= |input| && Turn(input, cap, s) == Some(t)
    requires Meant(input, stack, log, s.htab) && Rolled(input, s)
    ensures Meant(input, stack, log + Used(input, s), t.htab) && Rolled(input, t)
  {
    ProbeKeeps(input, stack, log, s);
    hide Probe, Meant, IsMatch, AfterMatch;
    if IsMatch(input, Probe(input, s).0, s.ip) {
      hide Used;
      MatchKeeps(input, stack, log, s);
    }
  }

  lemma MeantSize(input: bytes, stack: seq<u32>, log: seq<nat>, htab: seq<u32>)
    requires Meant(input, stack, log, htab)
    ensures |htab| == |stack| == HSIZE && Positions(input, log)
  {}

  lemma ReindexKeeps(input: bytes, stack: seq<u32>, log: seq<nat>, htab: seq<u32>, e: nat)
    requires Meant(input, stack, log, htab) && 2 <= e && e + 3 <= |input| < U32
    ensures var r := Reindex(htab, input, e);
            && Meant(input, stack, log + [e - 2] + [e - 1], r.0)
            && r.1 % 65536 == input[e] as int * 256 + input[e + 1]
  {
    var h := First(input, e - 2);
    Rolling(h, input, e - 2);
    Rolling(NextHash(h, input, e - 2), input, e - 1);
    OneUse(input, stack, log, htab, e - 2);
    OneUse(input, stack, log + [e - 2], htab[Slot(input, e - 2) := e - 2], e - 1);
  }

  // ---------------------------------------------------------------- the turns

  /** The states of the first turns on the way from the start. */
  ghost predicate Turns(input: bytes, cap: nat, stack: seq<u32>, ss: seq<Scan>) {
    && Compressible(input, stack) && input != [] && ss != [] && ss[0] == Start(input, stack)
    && forall k :: 0 <= k < |ss| - 1 ==> IsTurn(input, cap, ss[k], ss[k + 1])
  }

  ghost predicate IsTurn(input: bytes, cap: nat, s: Scan, t: Scan) {
    s.Ok(|input|) && s.op >= 1 && s.ip + 3 <= |input| && Turn(input, cap, s) == Some(t)
  }

  /** All positions entered into the table, in order. */
  ghost function Log(input: bytes, cap: nat, ss: seq<Scan>): (log: seq<nat>)
    requires forall k :: 0 <= k < |ss| - 1 ==> IsTurn(input, cap, ss[k], ss[k + 1])
  {
    var n := |ss| - 1;
    if n < 1 then []
    else
      assert IsTurn(input, cap, ss[n - 1], ss[n]);
      Log(input, cap, ss[..n]) + Used(input, ss[n - 1])
  }

  /** After any number of turns every slot holds the last position that was
      entered with it, or what the stack held. */
  lemma {:induction false} TableHoldsLast(input: bytes, cap: nat, stack: seq<u32>, ss: seq<Scan>)
    requires Turns(input, cap, stack, ss)
    ensures var log, s := Log(input, cap, ss), ss[|ss| - 1];
            && s.Ok(|input|) && s.op >= 1 && Meant(input, stack, log, s.htab) && Rolled(input, s)
            && forall k :: 0 <= k < |log| ==> log[k] < s.ip
    decreases |ss|
  {
    var n := |ss| - 1;
    if n > 0 {
      var before, s, t := ss[..n], ss[n - 1], ss[n];
      assert before[|before| - 1] == s && IsTurn(input, cap, s, t);
      TableHoldsLast(input, cap, stack, before);
      TurnKeeps(input, stack, Log(input, cap, before), cap, s, t);
      UsedBefore(input, cap, s, t);
      hide Meant, Rolled, Used, Turn;
    } else {
      hide Slot;
    }
  }

  lemma UsedBefore(input: bytes, cap: nat, s: Scan, t: Scan)
    requires IsTurn(input, cap, s, t)
    ensures t.Ok(|input|) && t.op >= 1 && t.ip > s.ip && forall k :: 0 <= k < |Used(input, s)| ==> Used(input, s)[k] < t.ip
  {
    hide Probe, IsMatch, MatchLen, Reindex, AfterRef;
  }

  lemma {:induction false} LastUseAt(input: bytes, stack: seq<u32>, log: seq<nat>, j: nat)
    requires Positions(input, log) && |stack| == HSIZE && j < |log|
    requires forall k :: j < k < |log| ==> Slot(input, log[k]) != Slot(input, log[j])
    ensures LastUse(input, stack, log, Slot(input, log[j])) == log[j]
    decreases |log|
  {
    var n := |log| - 1;
    hide Slot;
    if j < n {
      assert log[..n][j] == log[j];
      LastUseAt(input, stack, log[..n], j);
    }
  }

  /** Three bytes that were entered at ref, not too far back, and whose slot no
      position took since, are coded by a reference there, of as many bytes as
      agree, if there is room for one. */
  lemma KnownIsReferenced(input: bytes, cap: nat, stack: seq<u32>, ss: seq<Scan>, j: nat)
    requires Turns(input, cap, stack, ss) && j < |Log(input, cap, ss)| && ss[|ss| - 1].ip + 3 <= |input|
    requires var log, ip := Log(input, cap, ss), ss[|ss| - 1].ip;
             && 0 < log[j] && ip - log[j] <= 8192 && log[j] + 2 < |input| && SameThree(input, log[j], ip)
             && forall k :: j < k < |log| ==> log[k] + 2 < |input| && Slot(input, log[k]) != Slot(input, ip)
    ensures var s, ref := ss[|ss| - 1], Log(input, cap, ss)[j];
            && s.Ok(|input|) && s.op >= 1 && ref < s.ip && MatchLen(input, ref, s.ip) >= 3
            && (s.op + 4 < cap ==>
              var r := Turn(input, cap, s);
              r.Some? && r.value.ip == s.ip + MatchLen(input, ref, s.ip) && r.value.lit == 0 && r.value.op <= s.op + 4)
  {
    hide IsTurn, Log, Meant, Rolled, LastUse, Slot, Three, Probe, Turn, MatchLen, SameThree, Positions, Start;
    var log, s := Log(input, cap, ss), ss[|ss| - 1];
    TableHoldsLast(input, cap, stack, ss);
    MeantSize(input, stack, log, s.htab);
    ProbeKeeps(input, stack, log, s);
    SlotOf(input, log[j], s.ip);
    LastUseAt(input, stack, log, j);
    MatchTurn(input, cap, s, log[j]);
  }

  lemma SlotOf(input: bytes, p: nat, q: nat)
    requires p + 2 < |input| && q + 2 < |input| && SameThree(input, p, q)
    ensures Slot(input, p) == Slot(input, q)
  {
    assert Three(input, p) == Three(input, q);
  }

  lemma MatchTurn(input: bytes, cap: nat, s: Scan, ref: nat)
    requires s.Ok(|input|) && s.op >= 1 && s.ip + 3 <= |input| && Probe(input, s).0 == ref
    requires 0 < ref < s.ip && s.ip - ref <= 8192 && SameThree(input, ref, s.ip)
    ensures MatchLen(input, ref, s.ip) >= 3
    ensures s.op + 4 < cap ==>
              var r := Turn(input, cap, s);
              r.Some? && r.value.ip == s.ip + MatchLen(input, ref, s.ip) && r.value.lit == 0 && r.value.op <= s.op + 4
  {
    hide Probe, Reindex, MatchLen;
    assert IsMatch(input, ref, s.ip);
  }

  // ---------------------------------------------------------------- equal bytes

  function Ceil264(n: nat): nat { (n + 263) / 264 }

  predicate AllEqual(input: bytes) { forall i :: 0 <= i < |input| ==> input[i] == input[0] }

  /** In a run of equal bytes the table points to the byte before. */
  predicate InRun(input: bytes, s: Scan) {
    && s.Ok(|input|) && 2 <= s.ip && Rolled(input, s)
    && (s.ip + 2 < |input| ==> s.htab[Slot(input, s.ip)] == s.ip - 1)
  }

  lemma SameSlot(input: bytes, p: nat, q: nat)
    requires AllEqual(input) && p + 2 < |input| && q + 2 < |input|
    ensures Slot(input, p) == Slot(input, q)
  {
    assert Three(input, p) == Three(input, q);
  }

  /** How long the match is: 264 bytes, or all but two of the rest, or three. */
  lemma RunLength(input: bytes, ip: nat)
    requires AllEqual(input) && 2 <= ip && ip + 3 <= |input|
    ensures IsMatch(input, ip - 1, ip) && ip + MatchLen(input, ip - 1, ip) <= |input|
    ensures MatchLen(input, ip - 1, ip) == 264 || |input| <= ip + MatchLen(input, ip - 1, ip) + 2
  {
    assert input[ip - 1] == input[0] == input[ip] && input[ip + 1] == input[0] == input[ip + 2];
    MatchLenFits(input, ip - 1, ip);
    MatchLenEnds(input, ip - 1, ip);
  }

  lemma RunProbe(input: bytes, s: Scan)
    requires AllEqual(input) && InRun(input, s) && s.ip + 3 <= |input|
    ensures Probe(input, s).0 == s.ip - 1
  {
    Rolling(s.hval, input, s.ip);
    hide NextHash, Slot;
  }

  lemma RunReindex(input: bytes, htab: seq<u32>, ip: nat)
    requires AllEqual(input) && |htab| == HSIZE && 2 <= ip && ip + 3 <= |input| < U32
    ensures var r := Reindex(htab, input, ip);
            r.0[Slot(input, ip)] == ip - 1 && r.1 % 65536 == input[ip] as int * 256 + input[ip + 1]
  {
    var h0 := First(input, ip - 2);
    Rolling(h0, input, ip - 2);
    Rolling(NextHash(h0, input, ip - 2), input, ip - 1);
    SameSlot(input, ip - 1, ip);
    hide NextHash, Slot;
  }

  lemma RunTurn(input: bytes, s: Scan)
    requires AllEqual(input) && InRun(input, s) && s.op >= 1 && s.ip + 3 <= |input|
    ensures IsMatch(input, Probe(input, s).0, s.ip)
    ensures var t := AfterMatch(input, s);
            && InRun(input, t) && t.op == AfterRef(s.op, s.lit, t.ip - s.ip) && t.lit == 0
            && (t.ip == s.ip + 264 || |input| <= t.ip + 2)
  {
    RunProbe(input, s);
    RunLength(input, s.ip);
    hide Probe, MatchLen, AfterRef, Slot, Reindex, AllEqual, IsMatch;
    var t := AfterMatch(input, s);
    if t.ip + 2 < |input| { RunReindex(input, Probe(input, s).1, t.ip); }
  }

  /** The matches that n bytes of a run still take; two bytes take none. */
  function Matches264(n: nat): nat { if n <= 2 then 0 else Ceil264(n - 2) }

  /** From a run on, three bytes of output for each match. */
  lemma {:induction false} RunSize(input: bytes, cap: nat, s: Scan)
    requires AllEqual(input) && InRun(input, s) && s.op > 1 && s.lit == 0
    requires s.op + 3 * Matches264(|input| - s.ip) + 4 <= cap && |input| > 0
    ensures 0 < Size(input, cap, s) <= s.op + 3 * Matches264(|input| - s.ip) + 2
    decreases |input| - s.ip
  {
    hide Size;
    if s.ip + 2 < |input| {
      RunTurn(input, s);
      SizeStep(input, cap, s);
      hide InRun, Probe, IsMatch, AfterMatch;
      var t := AfterMatch(input, s);
      assert t.op <= s.op + 3 && Matches264(|input| - t.ip) + 1 <= Matches264(|input| - s.ip);
      RunSize(input, cap, t);
    } else {
      SizeEnd(input, cap, s);
    }
  }

  /** The turns that only take a literal. */
  lemma LiteralTurn(input: bytes, cap: nat, s: Scan)
    requires s.Ok(|input|) && s.op >= 1 && s.ip + 3 <= |input| && s.ip <= 1 && s.op < cap && s.lit + 1 < MAX_LIT
    requires Probe(input, s).0 == 0 || s.ip == 0
    ensures Turn(input, cap, s) == Some(AfterLiteral(input, s))
    ensures var t := AfterLiteral(input, s); t.ip == s.ip + 1 && t.op == s.op + 1 && t.lit == s.lit + 1
  {
    hide Probe;
  }

  lemma LiteralProbe(input: bytes, s: Scan)
    requires s.Ok(|input|) && s.ip + 3 <= |input| && Rolled(input, s)
    ensures var t := AfterLiteral(input, s); Rolled(input, t) && t.htab[Slot(input, s.ip)] == s.ip
  {
    Rolling(s.hval, input, s.ip);
    hide NextHash, Slot;
  }

  /** Equal bytes, whatever the table held, take three bytes for each started
      264 of them and ten more at the most. */
  lemma EqualBytesSize(input: bytes, cap: nat, stack: seq<u32>)
    requires Compressible(input, stack) && |input| >= 2 && AllEqual(input) && cap >= 14 + 3 * Ceil264(|input|)
    ensures 0 < SizeOf(input, cap, stack) <= 10 + 3 * Ceil264(|input|)
  {
    hide Size, Slot, Probe, AfterLiteral, AllEqual, Start, Ceil264, Rolled;
    var s0 := Start(input, stack);
    StartFacts(input, stack);
    if |input| < 3 {
      SizeEnd(input, cap, s0);
      assert Ceil264(|input|) >= 0;
    } else {
      SizeStep(input, cap, s0);
      LiteralTurn(input, cap, s0);
      LiteralProbe(input, s0);
      EqualFromOne(input, cap, AfterLiteral(input, s0));
    }
  }

  lemma StartFacts(input: bytes, stack: seq<u32>)
    requires Compressible(input, stack) && input != []
    ensures var s := Start(input, stack); s.Ok(|input|) && s.ip == 0 && s.op == 1 && s.lit == 0 && Rolled(input, s)
  {}

  lemma EqualFromOne(input: bytes, cap: nat, s: Scan)
    requires s.Ok(|input|) && s.ip == 1 && s.op == 2 && s.lit == 1 && |input| >= 3 && AllEqual(input)
    requires Rolled(input, s) && s.htab[Slot(input, 0)] == 0 && cap >= 14 + 3 * Ceil264(|input|)
    ensures 0 < Size(input, cap, s) <= 10 + 3 * Ceil264(|input|)
  {
    if s.ip + 2 >= |input| {
      SizeEnd(input, cap, s);
    } else {
      SameSlot(input, 0, 1);
      RollingProbe(input, s);
      LiteralProbe(input, s);
      hide Size, Slot, Probe, AfterLiteral, AllEqual, AfterMatch, IsMatch;
      SizeStep(input, cap, s);
      LiteralTurn(input, cap, s);
      var t := AfterLiteral(input, s);
      if t.ip + 2 >= |input| {
        SizeEnd(input, cap, t);
      } else {
        SameSlot(input, 1, 2);
        RunTurn(input, t);
        SizeStep(input, cap, t);
        RunSize(input, cap, AfterMatch(input, t));
      }
    }
  }

  lemma RollingProbe(input: bytes, s: Scan)
    requires s.Ok(|input|) && s.ip + 3 <= |input| && Rolled(input, s)
    ensures Probe(input, s).0 == s.htab[Slot(input, s.ip)]
  {
    Rolling(s.hval, input, s.ip);
    hide NextHash, Slot;
  }

  // --------------------------------------------------------------------- room

  lemma {:induction false} NotBelow(input: bytes, cap: nat, s: Scan)
    requires s.Ok(|input|) && s.op >= 1 && Size(input, cap, s) > 0
    ensures Size(input, cap, s) >= s.op - 1
    decreases |input| - s.ip
  {
    hide Size, Turn;
    if s.ip + 2 >= |input| {
      SizeEnd(input, cap, s);
    } else {
      SizeStep(input, cap, s);
      if Turn(input, cap, s).Some? {
        TurnGrows(input, cap, s);
        NotBelow(input, cap, Turn(input, cap, s).value);
      }
    }
  }

  lemma TurnGrows(input: bytes, cap: nat, s: Scan)
    requires s.Ok(|input|) && s.op >= 1 && s.ip + 3 <= |input| && Turn(input, cap, s).Some?
    ensures Turn(input, cap, s).value.op >= s.op + 1
    ensures IsMatch(input, Probe(input, s).0, s.ip) ==>
              Turn(input, cap, s).value.op >= s.op + (if s.lit == 0 then 2 else 3)
  {
    hide Probe, IsMatch, MatchLen, Reindex;
  }

  /** Both rooms allow the turn, or one of them does not. */
  lemma SameTurn(input: bytes, cap1: nat, cap2: nat, s: Scan)
    requires s.Ok(|input|) && s.op >= 1 && s.ip + 3 <= |input| && Turn(input, cap1, s).Some?
    requires cap2 + 1 >= Turn(input, cap1, s).value.op + 4 || cap2 >= cap1
    ensures Turn(input, cap2, s) == Turn(input, cap1, s)
  {
    TurnGrows(input, cap1, s);
    hide Probe, IsMatch, MatchLen, Reindex, AfterMatch, AfterLiteral;
  }

  /** A result that is found in some room is found in every room that has four
      bytes more than it takes. */
  lemma {:induction false} RoomSuffices(input: bytes, cap1: nat, cap2: nat, s: Scan)
    requires s.Ok(|input|) && s.op >= 1 && Size(input, cap1, s) > 0 && cap2 >= Size(input, cap1, s) + 4
    ensures Size(input, cap2, s) == Size(input, cap1, s)
    decreases |input| - s.ip
  {
    hide Size, Turn;
    if s.ip + 2 >= |input| {
      SizeEnd(input, cap1, s);
      SizeEnd(input, cap2, s);
    } else {
      SizeStep(input, cap1, s);
      SizeStep(input, cap2, s);
      var t := Turn(input, cap1, s).value;
      NotBelow(input, cap1, t);
      SameTurn(input, cap1, cap2, s);
      RoomSuffices(input, cap1, cap2, t);
    }
  }

  /** Failing is for lack of room: any result the same input and table lead to in
      some buffer comes out in every buffer with four bytes to spare. */
  lemma FailsForRoomOnly(input: bytes, cap1: nat, cap2: nat, stack: seq<u32>)
    requires Compressible(input, stack) && SizeOf(input, cap1, stack) > 0
    ensures cap2 >= SizeOf(input, cap1, stack) + 4 ==> SizeOf(input, cap2, stack) == SizeOf(input, cap1, stack)
  {
    hide Size;
    if cap2 >= SizeOf(input, cap1, stack) + 4 {
      StartFacts(input, stack);
      RoomSuffices(input, cap1, cap2, Start(input, stack));
    }
  }

  lemma AnyRoom(input: bytes, cap: nat, stack: seq<u32>)
    requires Compressible(input, stack)
    ensures forall c: nat :: cap >= SizeOf(input, c, stack) + 4 && SizeOf(input, c, stack) > 0 ==>
              SizeOf(input, cap, stack) == SizeOf(input, c, stack)
  {
    hide SizeOf;
    forall c: nat | cap >= SizeOf(input, c, stack) + 4 && SizeOf(input, c, stack) > 0
      ensures SizeOf(input, cap, stack) == SizeOf(input, c, stack)
    {
      FailsForRoomOnly(input, c, cap, stack);
    }
  }
}
