// Streaming SHA-1 (sha1.c) on a little-endian host.
module Sha1 {
  import opened Sequences
  import opened Sha1Standard

  function Rol8(x: word): word { (x << 8) | (x >> 24) }

  function Rol24(x: word): word { (x << 24) | (x >> 8) }

  /** Four octets read as a word by the host. */
  function HostWord(p: octet, q: octet, r: octet, s: octet): word {
    ((s as word) << 24) | ((r as word) << 16) | ((q as word) << 8) | (p as word)
  }

  function Swapped(x: word): word { (Rol24(x) & 0xFF00FF00) | (Rol8(x) & 0x00FF00FF) }

  lemma SwapIsBig(p: octet, q: octet, r: octet, s: octet)
    ensures Swapped(HostWord(p, q, r, s)) == BigWord(p, q, r, s)
  {}

  lemma ChForm(x: word, y: word, z: word)
    ensures (x & (y ^ z)) ^ z == Ch(x, y, z)
  {}

  lemma MajForm(x: word, y: word, z: word)
    ensures ((x | y) & z) | (x & y) == Maj(x, y, z)
  {}

  /** The ring of 16 words when i rounds are done: the latest schedule words,
      and ahead of them the words as loaded. */
  ghost predicate Ring(block: seq<word>, raw: seq<word>, m: seq<word>, i: nat)
    requires |m| == 16
  {
    && |block| == |raw| == 16 && (forall j :: 0 <= j < 16 ==> Swapped(raw[j]) == m[j])
    && (forall j :: 0 <= j < 16 && i <= j ==> block[j] == raw[j])
    && (forall t :: 0 <= t < i && i <= t + 16 ==> block[t % 16] == W(m, t))
  }

  /** The schedule word of round i, put in place in the ring. */
  method NextWord(block: array<word>, i: nat, ghost raw: seq<word>, ghost m: seq<word>) returns (w: word)
    requires |m| == 16 && block.Length == 16 && i < 80 && Ring(block[..], raw, m, i)
    modifies block
    ensures w == W(m, i) && Ring(block[..], raw, m, i + 1)
  {
    hide Swapped, Rol1;
    if i < 16 {
      // blk0
      w := Swapped(block[i]);
      block[i] := w;
    } else {
      // blk
      Slots(i);
      ghost var r := block[..];
      assert r[(i - 3) % 16] == W(m, i - 3) && r[(i - 8) % 16] == W(m, i - 8);
      assert r[(i - 14) % 16] == W(m, i - 14) && r[(i - 16) % 16] == W(m, i - 16);
      w := Rol1(block[(i + 13) % 16] ^ block[(i + 8) % 16] ^ block[(i + 2) % 16] ^ block[i % 16]);
      block[i % 16] := w;
    }
    RingStep(block[..], i);
  }

  lemma Slots(i: nat)
    requires i >= 16
    ensures (i + 13) % 16 == (i - 3) % 16 && (i + 8) % 16 == (i - 8) % 16 && (i + 2) % 16 == (i - 14) % 16 && i % 16 == (i - 16) % 16
  {}

  lemma RingStep(block: seq<word>, i: nat)
    ensures forall t :: 0 <= t < i && i + 1 <= t + 16 ==> t % 16 != i % 16
  {}

  /** The logical function and the constant of R0 to R4, by the round number. */
  function Gate(i: nat, w: word, x: word, y: word): word {
    if i < 20 then (w & (x ^ y)) ^ y
    else if i < 40 then w ^ x ^ y
    else if i < 60 then ((w | x) & y) | (w & x)
    else w ^ x ^ y
  }

  function Constant(i: nat): word {
    if i < 20 then 0x5A827999 else if i < 40 then 0x6ED9EBA1 else if i < 60 then 0x8F1BBCDC else 0xCA62C1D6
  }

  function Sum(z: word, f: word, k: word, c: word, r: word): word { z + (f + k + c + r) }

  lemma SumOrder(z: word, f: word, k: word, c: word, r: word)
    ensures Sum(z, f, k, c, r) == Total(r, f, z, c, k)
  {}

  lemma GateIsF(i: nat, w: word, x: word, y: word)
    ensures Gate(i, w, x, y) == F(i, w, x, y)
  {
    ChForm(w, x, y);
    MajForm(w, x, y);
    hide Ch, Maj;
  }

  lemma ConstantIsK(i: nat)
    ensures Constant(i) == K(i)
  {}

  lemma RoundIsStep(i: nat, v: word, w: word, x: word, y: word, z: word, k: word)
    ensures State(Sum(z, Gate(i, w, x, y), k, Constant(i), Rol5(v)), v, Rol30(w), x, y) == Step(State(v, w, x, y, z), i, k)
  {
    hide Rol5, Rol30, Gate, F, Constant, K, Sum, Total;
    GateIsF(i, w, x, y);
    ConstantIsK(i);
    SumOrder(z, F(i, w, x, y), k, K(i), Rol5(v));
  }

  /** One round; the caller rotates the names of the variables. */
  method Round(v: word, w: word, x: word, y: word, z: word, i: nat, block: array<word>, ghost raw: seq<word>,
               ghost m: seq<word>, ghost s: State)
    returns (z1: word, w1: word)
    requires |m| == 16 && block.Length == 16 && i < 80 && Ring(block[..], raw, m, i) && Steps(s, m, i) == State(v, w, x, y, z)
    modifies block
    ensures Ring(block[..], raw, m, i + 1) && Steps(s, m, i + 1) == State(z1, v, w1, x, y)
  {
    hide Ring, W, Sum, Gate, Constant, Rol5, Rol30, Step;
    var k := NextWord(block, i, raw, m);
    z1 := Sum(z, Gate(i, w, x, y), k, Constant(i), Rol5(v));
    w1 := Rol30(w);
    RoundIsStep(i, v, w, x, y, z, k);
  }

  method FiveRounds(a0: word, b0: word, c0: word, d0: word, e0: word, i: nat, block: array<word>, ghost raw: seq<word>,
                    ghost m: seq<word>, ghost s: State)
    returns (a: word, b: word, c: word, d: word, e: word)
    requires |m| == 16 && block.Length == 16 && i + 5 <= 80 && Ring(block[..], raw, m, i)
    requires Steps(s, m, i) == State(a0, b0, c0, d0, e0)
    modifies block
    ensures Ring(block[..], raw, m, i + 5) && Steps(s, m, i + 5) == State(a, b, c, d, e)
  {
    hide Ring, Steps;
    a, b, c, d, e := a0, b0, c0, d0, e0;
    e, b := Round(a, b, c, d, e, i, block, raw, m, s);
    d, a := Round(e, a, b, c, d, i + 1, block, raw, m, s);
    c, e := Round(d, e, a, b, c, i + 2, block, raw, m, s);
    b, d := Round(c, d, e, a, b, i + 3, block, raw, m, s);
    a, c := Round(b, c, d, e, a, i + 4, block, raw, m, s);
  }

  /** SHA1Transform: the unrolled rounds come in groups of five. */
  method Transform(state: State, buffer: seq<octet>) returns (r: State)
    requires |buffer| == 64
    ensures r == Compress(state, buffer)
  {
    hide Ring, Steps, Words, HostWord, Swapped, Add;
    var block := new word[16](i requires 0 <= i < 16 =>
      HostWord(buffer[4 * i], buffer[4 * i + 1], buffer[4 * i + 2], buffer[4 * i + 3]));
    ghost var raw, m := block[..], Words(buffer);
    Loaded(raw, buffer);
    var a, b, c, d, e := state.a, state.b, state.c, state.d, state.e;
    NoSteps(state, m);
    var i := 0;
    while i < 80
      invariant i <= 80 && i % 5 == 0 && Ring(block[..], raw, m, i) && Steps(state, m, i) == State(a, b, c, d, e)
    {
      a, b, c, d, e := FiveRounds(a, b, c, d, e, i, block, raw, m, state);
      i := i + 5;
    }
    r := Add(state, State(a, b, c, d, e));
  }

  lemma NoSteps(s: State, m: seq<word>)
    requires |m| == 16
    ensures Steps(s, m, 0) == s
  {}

  lemma Loaded(raw: seq<word>, buffer: seq<octet>)
    requires |buffer| == 64 && |raw| == 16
    requires forall i :: 0 <= i < 16 ==> raw[i] == HostWord(buffer[4 * i], buffer[4 * i + 1], buffer[4 * i + 2], buffer[4 * i + 3])
    ensures Ring(raw, raw, Words(buffer), 0)
  {
    var m := Words(buffer);
    hide HostWord, Swapped, BigWord;
    forall j | 0 <= j < 16
      ensures Swapped(raw[j]) == m[j]
    {
      SwapIsBig(buffer[4 * j], buffer[4 * j + 1], buffer[4 * j + 2], buffer[4 * j + 3]);
    }
  }

  const U32: nat := 0x1_0000_0000

  // ------------------------------------------------------------------ context

  /** The two 32-bit counters hold the number of bits. */
  ghost predicate Counts(count0: nat, count1: nat, len: nat) {
    count0 == 8 * len % U32 && count1 == 8 * len / U32 % U32
  }

  lemma CountParts(n: nat, len: nat, q: nat, r: nat, h: nat, l: nat)
    requires 8 * n == q * U32 + r && r < U32 && 8 * len == h * U32 + l && l < U32
    ensures var carry := if r + l >= U32 then 1 else 0;
            8 * (n + len) % U32 == r + l - carry * U32 && 8 * (n + len) / U32 == q + h + carry
  {
    var carry := if r + l >= U32 then 1 else 0;
    Split(8 * (n + len), q + h + carry, r + l - carry * U32);
  }

  lemma HighLow(x: nat)
    ensures x == x / U32 * U32 + x % U32
  {}

  lemma LowWrap(r: nat, l: nat)
    requires r < U32 && l < U32
    ensures (r + l) % U32 == r + l - (if r + l >= U32 then U32 else 0)
    ensures (r + l) % U32 < r <==> r + l >= U32
  {
    Split(r + l, if r + l >= U32 then 1 else 0, r + l - if r + l >= U32 then U32 else 0);
  }

  lemma Shifts(len: nat)
    ensures 8 * len / U32 == len / 0x2000_0000
  {}

  lemma InBlock(n: nat)
    ensures 8 * n % U32 / 8 % 64 == n % 64
  {
    var q, r := n / 0x2000_0000, n % 0x2000_0000;
    Split(8 * n, q, 8 * r);
    SmallBlock(q, r);
  }

  lemma SmallBlock(q: nat, r: nat)
    ensures (q * 0x2000_0000 + r) % 64 == r % 64
  {
    assert q * 0x2000_0000 + r == (q * 0x80_0000) * 64 + r;
  }

  /** Counting len octets in: the carry is detected by the wrap of the low
      counter.  j is the place in the buffer before. */
  method CountIn(count0: nat, count1: nat, len: nat, ghost n: nat) returns (c0: nat, c1: nat, j: nat)
    requires Counts(count0, count1, n) && len < U32
    ensures Counts(c0, c1, n + len) && j == n % 64
  {
    HighLow(8 * n);
    HighLow(8 * len);
    CountParts(n, len, 8 * n / U32, 8 * n % U32, 8 * len / U32, 8 * len % U32);
    LowWrap(8 * n % U32, 8 * len % U32);
    Shifts(len);
    InBlock(n);
    ModSteps(8 * n / U32, 8 * len / U32, if 8 * n % U32 + 8 * len % U32 >= U32 then 1 else 0);
    ghost var q, h := 8 * n / U32, 8 * len / U32;
    c0, c1 := (count0 + 8 * len % U32) % U32, count1;
    if c0 < count0 { c1 := (c1 + 1) % U32; } else { ModTwice(q); }
    c1 := (c1 + len / 0x2000_0000) % U32;
    j := count0 / 8 % 64;
  }

  lemma ModTwice(q: nat)
    ensures (q % U32 + 0) % U32 == q % U32
  {}

  lemma Split(x: nat, q: nat, r: int)
    requires x == q * U32 + r && 0 <= r < U32
    ensures x / U32 == q && x % U32 == r
  {}

  lemma ModSteps(q: nat, h: nat, carry: nat)
    ensures ((q % U32 + carry) % U32 + h) % U32 == (q + h + carry) % U32
  {}

  /** State and buffer after msg. */
  ghost predicate Holds(state: State, buffer: seq<octet>, msg: seq<octet>) {
    && |buffer| == 64 && state == Process(Initial(), msg)
    && buffer[..|msg| % 64] == msg[|msg| - |msg| % 64..]
  }

  class Context {
    var state: State
    var count0: nat
    var count1: nat
    const buffer: array<octet>
    ghost var msg: seq<octet>

    ghost predicate Valid()
      reads this, buffer
    {
      buffer.Length == 64 && Counts(count0, count1, |msg|) && Holds(state, buffer[..], msg)
    }

    /** SHA1Init. */
    constructor ()
      ensures Valid() && fresh(buffer) && msg == []
    {
      state := Initial();
      count0, count1 := 0, 0;
      buffer := new octet[64](_ => 0);
      msg := [];
    }

    /** SHA1Update.  The sum j + len is computed in 32 bits. */
    method Update(data: seq<octet>)
      requires Valid() && |msg| % 64 + |data| < U32
      modifies this, buffer
      ensures Valid() && msg == old(msg) + data
    {
      hide Holds, Counts;
      var j;
      count0, count1, j := CountIn(count0, count1, |data|, |msg|);
      state := Absorb(state, buffer, j, data, msg);
      msg := msg + data;
    }

    /** SHA1Final: the digest of everything fed to Update. */
    method Final() returns (digest: seq<octet>)
      requires Valid() && |msg| < 0x2000_0000_0000_0000
      modifies this, buffer
      ensures digest == Sha1(old(msg))
    {
      hide Holds, Counts, Octet, Process, Zeros, ZeroCount, Big64, DigestOf, Initial;
      ghost var m := msg;
      var finalcount := CountOctets(count0, count1, |msg|);
      Update([0x80]);
      ghost var k := 0;
      NoZeros(m);
      while PadMore(count0)
        invariant Valid() && |msg| == |m| + 1 + k && msg == m + [0x80] + Zeros(k) && k <= ZeroCount(|m|)
        decreases ZeroCount(|m|) - k
      {
        PadMoreIs(count0, count1, |msg|);
        MoreZeros(m, k);
        Update([0]);
        k := k + 1;
      }
      PadMoreIs(count0, count1, |msg|);
      ZerosDone(m, k);
      Update(finalcount);
      Finished(state, buffer[..], msg);
      digest := DigestOf(state);
    }
  }

  /** (context->count[0] & 504) != 448. */
  predicate PadMore(count0: nat) {
    count0 / 8 % 64 * 8 != 448
  }

  lemma PadMoreIs(count0: nat, count1: nat, len: nat)
    requires Counts(count0, count1, len)
    ensures PadMore(count0) <==> len % 64 != 56
  {
    InBlock(len);
  }

  /** finalcount: the counters, most significant octet first. */
  method CountOctets(count0: nat, count1: nat, ghost len: nat) returns (r: seq<octet>)
    requires Counts(count0, count1, len) && len < 0x2000_0000_0000_0000
    ensures r == Big64(8 * len)
  {
    hide Octet;
    r := [Octet(count1 / 0x100_0000), Octet(count1 / 0x1_0000), Octet(count1 / 0x100), Octet(count1),
          Octet(count0 / 0x100_0000), Octet(count0 / 0x1_0000), Octet(count0 / 0x100), Octet(count0)];
    HighOctets(8 * len, count1);
    LowOctets(8 * len, count0);
  }

  lemma HighOctets(n: nat, c: nat)
    requires n < U32 * U32 && c == n / U32 % U32
    ensures c == n / U32 && c / 0x100_0000 == n / 0x100_0000_0000_0000
    ensures c / 0x1_0000 == n / 0x1_0000_0000_0000 && c / 0x100 == n / 0x100_0000_0000
  {}

  lemma LowOctets(n: nat, c: nat)
    requires c == n % U32
    ensures Octet(c / 0x100_0000) == Octet(n / 0x100_0000) && Octet(c / 0x1_0000) == Octet(n / 0x1_0000)
    ensures Octet(c / 0x100) == Octet(n / 0x100) && Octet(c) == Octet(n)
  {
    hide Octet;
    HighLow(n);
    var q := n / U32;
    DivParts(n, q, c);
    Periodic(c / 0x100_0000, q);
    Periodic(c / 0x1_0000, 0x100 * q);
    Periodic(c / 0x100, 0x1_0000 * q);
    Periodic(c, 0x100_0000 * q);
  }

  lemma DivParts(n: nat, q: nat, c: nat)
    requires n == q * U32 + c && c < U32
    ensures n / 0x100_0000 == c / 0x100_0000 + 256 * q
    ensures n / 0x1_0000 == c / 0x1_0000 + 256 * (0x100 * q)
    ensures n / 0x100 == c / 0x100 + 256 * (0x1_0000 * q)
  {}

  lemma Periodic(x: nat, k: nat)
    ensures Octet(x + 256 * k) == Octet(x)
  {
    assert (x + 256 * k) % 256 == x % 256;
  }

  lemma NoZeros(m: seq<octet>)
    ensures m + [0x80] == m + [0x80] + Zeros(0)
  {}

  lemma MoreZeros(m: seq<octet>, k: nat)
    requires k <= ZeroCount(|m|) && (|m| + 1 + k) % 64 != 56
    ensures k < ZeroCount(|m|) && m + [0x80] + Zeros(k) + [0] == m + [0x80] + Zeros(k + 1)
  {}

  lemma ZerosDone(m: seq<octet>, k: nat)
    requires k <= ZeroCount(|m|) && (|m| + 1 + k) % 64 == 56
    ensures k == ZeroCount(|m|)
  {}

  lemma Finished(state: State, buffer: seq<octet>, msg: seq<octet>)
    requires Holds(state, buffer, msg)
    ensures state == Process(Initial(), msg)
  {}

  /** The block loop of SHA1Update. */
  method Absorb(state0: State, buffer: array<octet>, j0: nat, data: seq<octet>, ghost msg: seq<octet>) returns (state: State)
    requires buffer.Length == 64 && Holds(state0, buffer[..], msg) && j0 == |msg| % 64
    modifies buffer
    ensures Holds(state, buffer[..], msg + data)
  {
    hide Holds, Compress, Process;
    state := state0;
    var i, j := 0, j0;
    if j + |data| > 63 {
      i := 64 - j;
      ghost var before := buffer[..];
      CopyIn(buffer, j, data[..i]);
      FirstBlock(state, before, buffer[..], msg, data, i);
      state := Transform(state, buffer[..]);
      while i + 63 < |data|
        invariant i <= |data| && (|msg| + i) % 64 == 0 && state == Process(Initial(), msg + data[..i])
      {
        NextBlock(msg, data, i);
        state := Transform(state, data[i..i + 64]);
        i := i + 64;
      }
      j := 0;
    }
    ghost var kept := buffer[..];
    CopyIn(buffer, j, data[i..]);
    AllIn(state0, state, kept, buffer[..], msg, data, i, j);
  }

  /** memcpy(&buffer[j], s). */
  method CopyIn(buffer: array<octet>, j: nat, s: seq<octet>)
    requires buffer.Length == 64 && j + |s| <= 64
    modifies buffer
    ensures forall k :: 0 <= k < 64 ==> buffer[k] == if j <= k < j + |s| then s[k - j] else old(buffer[k])
  {
    forall k | 0 <= k < |s| {
      buffer[j + k] := s[k];
    }
  }

  lemma Slices<T>(s: seq<T>, i: nat, k: nat)
    requires i <= k <= |s|
    ensures s[..i] + s[i..k] == s[..k] && s[..i] + s[i..] == s
  {}

  /** A message is its complete blocks and what the buffer holds. */
  lemma Cut(state: State, buffer: seq<octet>, msg: seq<octet>) returns (a: seq<octet>, t: seq<octet>)
    requires Holds(state, buffer, msg)
    ensures |buffer| == 64 && msg == a + t && |a| % 64 == 0 && |t| == |msg| % 64 && t == buffer[..|t|] && state == Process(Initial(), a)
  {
    var k := |msg| - |msg| % 64;
    a, t := msg[..k], msg[k..];
    Slices(msg, k, |msg|);
    hide Process;
    ProcessRest(Initial(), a, t);
  }

  lemma Rejoin(state: State, buffer: seq<octet>, a: seq<octet>, t: seq<octet>)
    requires |a| % 64 == 0 && |t| < 64 && |buffer| == 64 && buffer[..|t|] == t && state == Process(Initial(), a)
    ensures Holds(state, buffer, a + t)
  {
    hide Process;
    ProcessRest(Initial(), a, t);
    SmallMod(|a|, |t|);
    assert (a + t)[|a|..] == t;
  }

  lemma SmallMod(n: nat, k: nat)
    requires n % 64 == 0 && k < 64
    ensures (n + k) % 64 == k
  {}

  lemma FirstBlock(state: State, before: seq<octet>, buffer: seq<octet>, msg: seq<octet>, data: seq<octet>, i: nat)
    requires Holds(state, before, msg) && |buffer| == 64 && i == 64 - |msg| % 64 && i <= |data|
    requires forall k :: 0 <= k < 64 ==> buffer[k] == if |msg| % 64 <= k then data[k - |msg| % 64] else before[k]
    ensures (|msg| + i) % 64 == 0 && Compress(state, buffer) == Process(Initial(), msg + data[..i])
  {
    hide Compress, Process, Holds;
    var a, t := Cut(state, before, msg);
    FullBlock(|msg|, i);
    var d := data[..i];
    Filled(before, buffer, t, d);
    Assoc(a, t, d);
    ProcessBlock(Initial(), a, buffer);
    Assoc(a, t, d);
  }

  lemma FullBlock(n: nat, i: nat)
    requires i == 64 - n % 64
    ensures (n + i) % 64 == 0
  {}

  lemma Filled(before: seq<octet>, buffer: seq<octet>, t: seq<octet>, d: seq<octet>)
    requires |before| == |buffer| == 64 == |t| + |d| && t == before[..|t|]
    requires forall k :: 0 <= k < 64 ==> buffer[k] == if |t| <= k then d[k - |t|] else before[k]
    ensures buffer == t + d
  {}

  lemma NextBlock(msg: seq<octet>, data: seq<octet>, i: nat)
    requires (|msg| + i) % 64 == 0 && i + 64 <= |data|
    ensures Compress(Process(Initial(), msg + data[..i]), data[i..i + 64]) == Process(Initial(), msg + data[..i + 64])
  {
    hide Compress, Process;
    ProcessBlock(Initial(), msg + data[..i], data[i..i + 64]);
    Assoc(msg, data[..i], data[i..i + 64]);
    Slices(data, i, i + 64);
  }

  lemma AllIn(state0: State, state: State, kept: seq<octet>, buffer: seq<octet>, msg: seq<octet>, data: seq<octet>, i: nat, j: nat)
    requires |kept| == |buffer| == 64 && i <= |data| && j + (|data| - i) < 64
    requires forall k :: 0 <= k < 64 ==> buffer[k] == if j <= k < j + (|data| - i) then data[i + (k - j)] else kept[k]
    requires if i == 0 then Holds(state0, kept, msg) && state == state0 && j == |msg| % 64
             else j == 0 && (|msg| + i) % 64 == 0 && state == Process(Initial(), msg + data[..i])
    ensures Holds(state, buffer, msg + data)
  {
    hide Process, Holds;
    if i == 0 {
      AppendRest(state, kept, buffer, msg, data);
    } else {
      Slices(data, i, |data|);
      Assoc(msg, data[..i], data[i..]);
      PlacedRest(buffer, data[i..]);
      Rejoin(state, buffer, msg + data[..i], data[i..]);
    }
  }

  lemma PlacedRest(buffer: seq<octet>, t: seq<octet>)
    requires |buffer| == 64 && |t| < 64 && forall k :: 0 <= k < |t| ==> buffer[k] == t[k]
    ensures buffer[..|t|] == t
  {}

  lemma AppendRest(state: State, kept: seq<octet>, buffer: seq<octet>, msg: seq<octet>, data: seq<octet>)
    requires Holds(state, kept, msg) && |kept| == |buffer| == 64 && |msg| % 64 + |data| < 64
    requires forall k :: 0 <= k < 64 ==> buffer[k] == if |msg| % 64 <= k < |msg| % 64 + |data| then data[k - |msg| % 64] else kept[k]
    ensures Holds(state, buffer, msg + data)
  {
    hide Process, Holds;
    var a, t := Cut(state, kept, msg);
    Buffered(kept, buffer, t, data);
    Assoc(a, t, data);
    Rejoin(state, buffer, a, t + data);
  }

  lemma Buffered(kept: seq<octet>, buffer: seq<octet>, t: seq<octet>, data: seq<octet>)
    requires |kept| == |buffer| == 64 && |t| + |data| < 64 && t == kept[..|t|]
    requires forall k :: 0 <= k < 64 ==> buffer[k] == if |t| <= k < |t| + |data| then data[k - |t|] else kept[k]
    ensures buffer[..|t + data|] == t + data
  {}
}
