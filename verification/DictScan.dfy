// The stateless cursor of dictScan (dict.c).  Table sizes are powers of two,
// so for a mask of k ones  x & mask  is  x % 2^k.
module DictScan {
  import opened Dict

  const W: nat := 64

  // -------------------------------------------------------------- arithmetic

  /** A product that proofs can treat as a name. */
  function Mul(a: nat, b: nat): nat { a * b }

  lemma MulFacts(a: nat, b: nat)
    ensures Mul(a, b) == Mul(b, a) && Mul(a + 1, b) == Mul(a, b) + b && Mul(a, b + 1) == Mul(a, b) + a
    ensures Mul(0, b) == 0 && Mul(1, b) == b && Mul(2, b) == 2 * b
    ensures a > 0 ==> Mul(a - 1, b) + b == Mul(a, b)
  {}

  lemma MulAdd(a: nat, b: nat, c: nat)
    ensures Mul(a, b + c) == Mul(a, b) + Mul(a, c) && Mul(b + c, a) == Mul(b, a) + Mul(c, a)
  {}

  lemma MulAssoc(a: nat, b: nat, c: nat)
    ensures Mul(Mul(a, b), c) == Mul(a, Mul(b, c))
  {
    assert a * b * c == a * (b * c);
  }

  lemma MulMono(p: nat, a: nat, b: nat)
    requires a <= b
    ensures Mul(p, a) <= Mul(p, b)
    ensures a < b ==> Mul(p, a) + p <= Mul(p, b)
  {
    hide Mul;
    MulAdd(p, a, b - a);
    if a < b {
      MulFacts(p, b - a - 1);
    }
  }

  lemma {:induction false} PowAdd(a: nat, b: nat)
    ensures Pow2(a + b) == Mul(Pow2(a), Pow2(b))
  {
    hide Mul;
    if a > 0 {
      PowAdd(a - 1, b);
      MulAssoc(2, Pow2(a - 1), Pow2(b));
      MulFacts(2, Pow2(a - 1));
      MulFacts(2, Mul(Pow2(a - 1), Pow2(b)));
    } else {
      MulFacts(0, Pow2(b));
    }
  }

  lemma PowMono(k: nat, n: nat)
    requires k <= n
    ensures Pow2(k) <= Pow2(n)
  {
    hide Mul;
    PowAdd(k, n - k);
    MulMono(Pow2(k), 1, Pow2(n - k));
    MulFacts(Pow2(k), 0);
    MulFacts(1, Pow2(k));
  }

  /** x & (2^k - 1). */
  function Lo(x: nat, k: nat): (r: nat)
    ensures r < Pow2(k)
  {
    x % Pow2(k)
  }

  /** x >> k. */
  function Hi(x: nat, k: nat): (r: nat)
    ensures x == Mul(Pow2(k), r) + Lo(x, k)
  {
    Divides(x, Pow2(k));
    x / Pow2(k)
  }

  lemma Divides(x: nat, p: nat)
    requires p > 0
    ensures x / p >= 0 && x == Mul(p, x / p) + x % p
  {}

  lemma HiLo(x: nat, k: nat, q: nat, r: nat)
    requires x == Mul(Pow2(k), q) + r && r < Pow2(k)
    ensures Hi(x, k) == q && Lo(x, k) == r
  {
    var p, h, l := Pow2(k), Hi(x, k), Lo(x, k);
    hide Mul, Hi, Lo, Pow2;
    if h < q { MulMono(p, h, q); }
    if q < h { MulMono(p, q, h); }
  }

  lemma HiMono(x: nat, y: nat, k: nat)
    requires x <= y
    ensures Hi(x, k) <= Hi(y, k)
  {
    var a, b := Hi(x, k), Hi(y, k);
    hide Mul, Hi, Lo, Pow2;
    if b < a { MulMono(Pow2(k), b, a); }
  }

  /** Bits k0 .. k1 of x. */
  function Mid(x: nat, k0: nat, k1: nat): nat
    requires k0 <= k1
  {
    Hi(Lo(x, k1), k0)
  }

  lemma MidBits(x: nat, k0: nat, k1: nat)
    requires k0 <= k1
    ensures Mid(x, k0, k1) == Lo(Hi(x, k0), k1 - k0) && Lo(Lo(x, k1), k0) == Lo(x, k0)
    ensures Lo(x, k1) == Mul(Pow2(k0), Mid(x, k0, k1)) + Lo(x, k0)
    ensures Hi(x, k1) == Hi(Hi(x, k0), k1 - k0)
  {
    hide Mul, Hi, Lo, Pow2;
    var p, d := Pow2(k0), Pow2(k1 - k0);
    var y, lo := Hi(x, k0), Lo(x, k0);
    var q, m := Hi(y, k1 - k0), Lo(y, k1 - k0);
    PowAdd(k0, k1 - k0);
    MulAdd(p, Mul(d, q), m);
    MulAssoc(p, d, q);
    MulMono(p, m, d);
    HiLo(x, k1, q, Mul(p, m) + lo);
    HiLo(Mul(p, m) + lo, k0, m, lo);
  }

  // ------------------------------------------------------------ bit reversal

  /** The low n bits of v in reverse order. */
  function Rev(v: nat, n: nat): (r: nat)
    ensures r < Pow2(n)
  {
    if n == 0 then 0 else (if v % 2 == 1 then Pow2(n - 1) else 0) + Rev(v / 2, n - 1)
  }

  lemma PowOne()
    ensures Pow2(0) == 1 && Pow2(1) == 2
  {}

  lemma HalfBits(v: nat, k: nat)
    requires k >= 1
    ensures Lo(v, k) % 2 == v % 2 && Lo(v, k) / 2 == Lo(v / 2, k - 1)
    ensures Hi(v / 2, k - 1) == Hi(v, k)
  {
    var p := Pow2(k - 1);
    assert Pow2(k) == 2 * p;
    var q, r := Hi(v / 2, k - 1), Lo(v / 2, k - 1);
    hide Hi, Lo, Mul, Pow2;
    MulFacts(2, p);
    MulAssoc(2, p, q);
    MulFacts(2, Mul(p, q));
    HiLo(v, k, q, 2 * r + v % 2);
  }

  /** Reversal of a word splits at any bit k: the low k bits become the high ones. */
  lemma {:induction false} RevSplit(v: nat, k: nat, n: nat)
    requires k <= n
    ensures Rev(v, n) == Mul(Rev(Lo(v, k), k), Pow2(n - k)) + Rev(Hi(v, k), n - k)
    decreases k
  {
    hide Mul, Hi, Lo;
    if k == 0 {
      MulFacts(1, v);
      MulFacts(0, Pow2(n));
      HiLo(v, 0, v, 0);
    } else {
      HalfBits(v, k);
      RevSplit(v / 2, k - 1, n - 1);
      PowAdd(k - 1, n - k);
      MulAdd(Pow2(n - k), Pow2(k - 1), Rev(Lo(v / 2, k - 1), k - 1));
    }
  }

  lemma TopBit(v: nat, n: nat)
    requires n > 0 && v < Pow2(n)
    ensures Hi(v, n - 1) <= 1
  {
    var p, q := Pow2(n - 1), Hi(v, n - 1);
    assert Pow2(n) == 2 * p;
    hide Mul, Hi, Lo, Pow2;
    if q >= 2 { MulMono(p, 2, q); MulFacts(2, p); }
  }

  lemma RevBit(q: nat)
    requires q <= 1
    ensures Rev(q, 1) == q
  {
    PowOne();
    assert Rev(q / 2, 0) == 0;
  }

  /** The top bit becomes the lowest one. */
  lemma RevTop(v: nat, n: nat)
    requires n > 0 && v < Pow2(n)
    ensures Hi(v, n - 1) <= 1 && Rev(v, n) == 2 * Rev(Lo(v, n - 1), n - 1) + Hi(v, n - 1)
  {
    TopBit(v, n);
    hide Rev, Hi, Lo, Pow2, Mul;
    RevSplit(v, n - 1, n);
    assert n - (n - 1) == 1;
    RevBit(Hi(v, n - 1));
    PowOne();
    MulFacts(2, Rev(Lo(v, n - 1), n - 1));
  }

  lemma RevPush(r: nat, q: nat, n: nat)
    requires n > 0 && q <= 1
    ensures Rev(2 * r + q, n) == Mul(Pow2(n - 1), q) + Rev(r, n - 1)
  {
    assert (2 * r + q) % 2 == q && (2 * r + q) / 2 == r;
    hide Mul;
    MulFacts(q, Pow2(n - 1));
    MulFacts(1, Pow2(n - 1));
    MulFacts(0, Pow2(n - 1));
  }

  /** Reversing twice gives the low bits back. */
  lemma {:induction false} RevRev(v: nat, n: nat)
    requires v < Pow2(n)
    ensures Rev(Rev(v, n), n) == v
  {
    if n > 0 {
      hide Rev, Hi, Lo, Mul;
      RevTop(v, n);
      RevPush(Rev(Lo(v, n - 1), n - 1), Hi(v, n - 1), n);
      RevRev(Lo(v, n - 1), n - 1);
    }
  }

  /** All ones reverse to all ones. */
  lemma {:induction false} RevOnes(n: nat)
    ensures Rev(Pow2(n) - 1, n) == Pow2(n) - 1
  {
    if n > 0 {
      RevOnes(n - 1);
      assert (Pow2(n) - 1) % 2 == 1 && (Pow2(n) - 1) / 2 == Pow2(n - 1) - 1;
    }
  }

  lemma {:induction false} RevZero(n: nat)
    ensures Rev(0, n) == 0
  {
    if n > 0 { RevZero(n - 1); }
  }

  /** Bit i of a reversed word is bit n - 1 - i of the word. */
  lemma RevBits(v: nat, n: nat, i: nat)
    requires i < n
    ensures Lo(Hi(Rev(v, n), i), 1) == Lo(Hi(v, n - 1 - i), 1)
  {
    hide Rev, Hi, Lo, Pow2, Mul;
    var k := n - 1 - i;
    var y := Hi(v, k);
    var high := Rev(Lo(v, k), k);
    RevSplit(v, k, n);
    MulFacts(high, Pow2(i + 1));
    HiLo(Rev(v, n), i + 1, high, Rev(y, i + 1));
    MidBits(Rev(v, n), i, i + 1);
    RevSplit(y, 1, i + 1);
    OneBit(y);
    RevBit(Lo(y, 1));
    MulFacts(Lo(y, 1), Pow2(i));
    HiLo(Rev(y, i + 1), i, Lo(y, 1), Rev(Hi(y, 1), i));
    assert i + 1 - i == 1 && i + 1 - 1 == i && n - k == i + 1;
  }

  lemma OneBit(y: nat)
    ensures Lo(y, 1) <= 1
  {
    PowOne();
  }

  // -------------------------------------------------------------- the cursor

  /** v | ~mask, in a 64-bit word. */
  function SetUnmasked(v: nat, k: nat): nat
    requires Pow2(k) <= Pow2(W)
  {
    Lo(v, k) + (Pow2(W) - Pow2(k))
  }

  /** The end of dictScan: set the unmasked bits, reverse, increment, reverse. */
  function Next(v: nat, k: nat): (r: nat)
    requires k <= W
    ensures r < Pow2(W)
  {
    PowMono(k, W);
    Rev(Lo(Rev(SetUnmasked(v, k), W) + 1, W), W)
  }

  /** The order in which cursors are visited. */
  function Pos(x: nat): (r: nat)
    ensures r < Pow2(W)
  {
    Rev(x, W)
  }

  /** The leading bits of a position are the reversed bucket number. */
  lemma PosBucket(x: nat, k: nat)
    requires k <= W
    ensures Hi(Pos(x), W - k) == Rev(Lo(x, k), k)
  {
    hide Rev, Hi, Lo, Pow2, Mul;
    RevSplit(x, k, W);
    MulFacts(Rev(Lo(x, k), k), Pow2(W - k));
    HiLo(Pos(x), W - k, Rev(Lo(x, k), k), Rev(Hi(x, k), W - k));
  }

  lemma UnmaskedParts(v: nat, k: nat)
    requires k <= W && Pow2(k) <= Pow2(W)
    ensures Lo(SetUnmasked(v, k), k) == Lo(v, k) && Hi(SetUnmasked(v, k), k) == Pow2(W - k) - 1
  {
    hide Hi, Lo, Pow2, Mul;
    PowAdd(k, W - k);
    MulFacts(Pow2(W - k), Pow2(k));
    MulFacts(Pow2(k), Pow2(W - k) - 1);
    HiLo(SetUnmasked(v, k), k, Pow2(W - k) - 1, Lo(v, k));
  }

  lemma UnmaskedRev(v: nat, k: nat)
    requires k <= W && Pow2(k) <= Pow2(W)
    ensures Rev(SetUnmasked(v, k), W) + 1 == Mul(Rev(Lo(v, k), k) + 1, Pow2(W - k))
  {
    hide Rev, Hi, Lo, Pow2, SetUnmasked, Mul;
    UnmaskedParts(v, k);
    RevSplit(SetUnmasked(v, k), k, W);
    RevOnes(W - k);
    MulFacts(Rev(Lo(v, k), k), Pow2(W - k));
  }

  lemma Wrap(r: nat, n: nat)
    requires r <= Pow2(n)
    ensures Lo(r, n) == if r < Pow2(n) then r else 0
  {
    var p := Pow2(n);
    hide Mul, Hi, Lo, Pow2;
    MulFacts(0, p);
    MulFacts(1, p);
    MulFacts(p, 0);
    if r < p { HiLo(r, n, 0, r); } else { HiLo(r, n, 1, 0); }
  }

  /** Where the interval of the current bucket ends; 0 when it was the last one. */
  lemma NextPos(v: nat, k: nat)
    requires k <= W
    ensures var a := Rev(Lo(v, k), k);
            Pos(Next(v, k)) == if a + 1 < Pow2(k) then Mul(a + 1, Pow2(W - k)) else 0
  {
    hide Rev, Hi, Lo, Pow2, SetUnmasked, Mul;
    PowMono(k, W);
    UnmaskedRev(v, k);
    PowAdd(k, W - k);
    var a, t := Rev(Lo(v, k), k), Pow2(W - k);
    MulFacts(a + 1, t);
    MulFacts(Pow2(k), t);
    MulMono(t, a + 1, Pow2(k));
    Wrap(Mul(a + 1, t), W);
    RevRev(Lo(Mul(a + 1, t), W), W);
  }

  /** The reversed cursor strictly increases until it wraps to 0. */
  lemma CursorAdvances(v: nat, k: nat)
    requires k <= W
    ensures Pos(Next(v, k)) == 0 || Pos(Next(v, k)) > Pos(v)
  {
    hide Rev, Hi, Lo, Pow2, Pos, Next, Mul;
    NextPos(v, k);
    PosBucket(v, k);
    var a, t := Rev(Lo(v, k), k), Pow2(W - k);
    MulFacts(a, t);
    assert Pos(v) == Mul(t, a) + Lo(Pos(v), W - k);
  }

  /** A word whose low bits are zero reverses to its high bits reversed. */
  lemma RevHigh(c: nat, k: nat)
    requires k <= W
    ensures Rev(Mul(c, Pow2(W - k)), W) == Rev(c, k)
  {
    hide Rev, Hi, Lo, Pow2, Mul;
    var t := Pow2(W - k);
    MulFacts(c, t);
    HiLo(Mul(c, t), W - k, c, 0);
    RevSplit(Mul(c, t), W - k, W);
    RevZero(W - k);
    MulFacts(0, Pow2(k));
    assert W - (W - k) == k;
  }

  /** The next cursor has no bit above the mask it was computed with. */
  lemma NextLow(v: nat, k: nat)
    requires k <= W
    ensures Next(v, k) < Pow2(k)
    ensures Next(v, k) == Rev(Lo(Rev(Lo(v, k), k) + 1, k), k)
  {
    hide Rev, Hi, Lo, Pow2, Next, Mul;
    NextPos(v, k);
    var a, t, p := Rev(Lo(v, k), k), Pow2(W - k), Pow2(k);
    Wrap(a + 1, k);
    var c := Lo(a + 1, k);
    MulFacts(0, t);
    assert Pos(Next(v, k)) == Mul(c, t);
    RevRev(Next(v, k), W);
    RevHigh(c, k);
  }

  // ------------------------------------------------------ what a call visits

  /** The hashes that a call with cursor v is responsible for: from its
      position up to the position of the cursor it returns. */
  ghost predicate Due(v: nat, k: nat, h: nat)
    requires k <= W
  {
    Pos(v) <= Pos(h) && (Pos(Next(v, k)) == 0 || Pos(h) < Pos(Next(v, k)))
  }

  /** All due hashes fall into the one bucket at the cursor. */
  lemma DueBucket(v: nat, k: nat, h: nat)
    requires k <= W && Due(v, k, h)
    ensures Lo(h, k) == Lo(v, k)
  {
    hide Rev, Hi, Lo, Pow2, Pos, Next, Mul;
    var a, b, t := Rev(Lo(v, k), k), Rev(Lo(h, k), k), Pow2(W - k);
    NextPos(v, k);
    PosBucket(v, k);
    PosBucket(h, k);
    HiMono(Pos(v), Pos(h), W - k);
    if a + 1 < Pow2(k) && a + 1 <= b {
      MulFacts(a + 1, t);
      MulMono(t, a + 1, b);
    }
    RevLess(v, k);
    RevLess(h, k);
    RevRev(Lo(v, k), k);
    RevRev(Lo(h, k), k);
  }

  lemma RevLess(v: nat, k: nat)
    ensures Rev(Lo(v, k), k) < Pow2(k)
  {}

  /** v = (((v | m0) + 1) & ~m0) | (v & m0), in a 64-bit word. */
  function Bump(v: nat, k0: nat): nat {
    Lo(Mul(Pow2(k0), Hi(v, k0) + 1), W) + Lo(v, k0)
  }

  /** During rehashing a call visits, in the larger table, the expansions of
      its bucket from the current middle bits up to the last one. */
  ghost predicate Visited(v: nat, k0: nat, k1: nat, h: nat)
    requires k0 <= k1
  {
    Lo(h, k0) == Lo(v, k0) && Mid(h, k0, k1) >= Mid(v, k0, k1)
  }

  /** One turn of the expansion loop: the next expansion, or back to none. */
  lemma BumpStep(v: nat, k0: nat, k1: nat)
    requires k0 <= k1 <= W
    ensures Lo(Bump(v, k0), k0) == Lo(v, k0)
    ensures Mid(Bump(v, k0), k0, k1) == if Mid(v, k0, k1) + 1 < Pow2(k1 - k0) then Mid(v, k0, k1) + 1 else 0
  {
    hide Hi, Lo, Pow2, Mul, Mid, Rev;
    var y := Hi(v, k0) + 1;
    HighPart(y, k0);
    HiLo(Bump(v, k0), k0, Lo(y, W - k0), Lo(v, k0));
    MidBits(Bump(v, k0), k0, k1);
    MidBits(v, k0, k1);
    MidBits(y, k1 - k0, W - k0);
    LoSucc(Hi(v, k0), k1 - k0);
  }

  lemma HighPart(y: nat, k0: nat)
    requires k0 <= W
    ensures Lo(Mul(Pow2(k0), y), W) == Mul(Pow2(k0), Lo(y, W - k0))
  {
    hide Hi, Lo, Pow2, Mul, Mid;
    var p := Pow2(k0);
    HiLo(Mul(p, y), k0, y, 0);
    MidBits(Mul(p, y), k0, W);
  }

  lemma LoSucc(y: nat, d: nat)
    ensures Lo(y + 1, d) == if Lo(y, d) + 1 < Pow2(d) then Lo(y, d) + 1 else 0
  {
    hide Hi, Lo, Pow2, Mul;
    var q, r := Hi(y, d), Lo(y, d);
    if r + 1 < Pow2(d) {
      HiLo(y + 1, d, q, r + 1);
    } else {
      MulFacts(Pow2(d), q);
      HiLo(y + 1, d, q + 1, 0);
    }
  }

  // ------------------------------------------- when one call misses nothing

  lemma PosMid(x: nat, k0: nat, k1: nat)
    requires k0 <= k1 <= W
    ensures Hi(Pos(x), W - k1) == Mul(Rev(Lo(x, k0), k0), Pow2(k1 - k0)) + Rev(Mid(x, k0, k1), k1 - k0)
  {
    hide Rev, Hi, Lo, Pow2, Pos, Mul;
    PosBucket(x, k1);
    MidBits(x, k0, k1);
    RevSplit(Lo(x, k1), k0, k1);
  }

  lemma RevSmall(m: nat, j: nat, d: nat)
    requires j <= d && m < Pow2(j)
    ensures Rev(m, d) == Mul(Rev(m, j), Pow2(d - j))
  {
    hide Rev, Hi, Lo, Pow2, Mul;
    MulFacts(Pow2(j), 0);
    MulFacts(0, Pow2(j));
    HiLo(m, j, 0, m);
    RevSplit(m, j, d);
    RevZero(d - j);
  }

  /** Among the numbers of at most j bits the all-ones one reverses to the greatest. */
  lemma BelowOnes(m: nat, j: nat, d: nat)
    requires j <= d && m + 1 < Pow2(j)
    ensures Rev(m, d) < Rev(Pow2(j) - 1, d)
  {
    hide Rev, Hi, Lo, Pow2, Mul;
    var p, t := Pow2(j), Pow2(d - j);
    RevSmall(m, j, d);
    RevSmall(p - 1, j, d);
    RevOnes(j);
    RevBound(m, j);
    if Rev(m, j) == p - 1 {
      RevRev(m, j);
    } else {
      MulFacts(Rev(m, j), t);
      MulFacts(p - 1, t);
      MulMono(t, Rev(m, j), p - 1);
    }
  }

  lemma RevBound(m: nat, j: nat)
    ensures Rev(m, j) < Pow2(j)
  {}

  /** A rehashing call is complete when the middle bits of its cursor are all
      ones up to their highest one. */
  lemma CallCovers(v: nat, k0: nat, k1: nat, h: nat)
    requires k0 <= k1 <= W && Due(v, k0, h) && PowerOfTwo(Mid(v, k0, k1) + 1)
    ensures Visited(v, k0, k1, h)
  {
    hide Rev, Hi, Lo, Pow2, Pos, Next, Mul, Mid;
    DueBucket(v, k0, h);
    var j: nat :| Pow2(j) == Mid(v, k0, k1) + 1;
    PosMid(v, k0, k1);
    PosMid(h, k0, k1);
    HiMono(Pos(v), Pos(h), W - k1);
    MidBound(v, k0, k1);
    if Mid(h, k0, k1) < Mid(v, k0, k1) {
      if j > k1 - k0 { PowMono(k1 - k0 + 1, j); PowSucc(k1 - k0); }
      BelowOnes(Mid(h, k0, k1), j, k1 - k0);
    }
  }

  lemma PowSucc(d: nat)
    ensures Pow2(d + 1) == 2 * Pow2(d)
  {}

  lemma MidBound(v: nat, k0: nat, k1: nat)
    requires k0 <= k1
    ensures Mid(v, k0, k1) < Pow2(k1 - k0)
  {
    MidBits(v, k0, k1);
  }

  /** The position of the highest one bit. */
  lemma {:induction false} HighestBit(u: nat) returns (j: nat)
    requires u > 0
    ensures Pow2(j) <= u < Pow2(j + 1)
  {
    if u == 1 {
      j := 0;
      PowOne();
    } else {
      j := HighestBit(u / 2);
      PowSucc(j);
      PowSucc(j + 1);
      j := j + 1;
    }
  }

  /** Two numbers with the same highest bit j and one of them not all ones. */
  lemma OnesBeat(u: nat, j: nat, d: nat)
    requires Pow2(j) <= u < Pow2(j + 1) && u + 1 != Pow2(j + 1) && u < Pow2(d)
    ensures j < d && Rev(u, d) < Rev(Pow2(j) - 1, d)
  {
    if d <= j { PowMono(d, j); }
    PowSucc(j);
    hide Rev, Hi, Lo, Pow2, Mul;
    var p, t, low := Pow2(j), Pow2(d - j), u - Pow2(j);
    MulFacts(p, 0);
    MulFacts(0, p);
    MulFacts(1, p);
    HiLo(u, j, 1, low);
    RevSplit(u, j, d);
    RevSmall(p - 1, j, d);
    RevOnes(j);
    RevBound(low, j);
    RevBound(1, d - j);
    if Rev(low, j) == p - 1 {
      RevRev(low, j);
    } else {
      MulFacts(Rev(low, j), t);
      MulFacts(p - 1, t);
      MulMono(t, Rev(low, j), p - 1);
    }
  }

  /** Otherwise some due hash is skipped. */
  lemma CallMisses(v: nat, k0: nat, k1: nat) returns (h: nat)
    requires k0 <= k1 <= W && !PowerOfTwo(Mid(v, k0, k1) + 1)
    ensures Due(v, k0, h) && !Visited(v, k0, k1, h) && h < Pow2(k1)
  {
    hide Rev, Hi, Lo, Pow2, Next, Mul, Pos;
    var u := Mid(v, k0, k1);
    OneIsPower();
    var j := HighestBit(u);
    MidBound(v, k0, k1);
    OnesBeat(u, j, k1 - k0);
    var p, a := Pow2(k0), Rev(Lo(v, k0), k0);
    h := Mul(p, Pow2(j) - 1) + Lo(v, k0);
    WitnessBits(v, k0, k1, Pow2(j) - 1);
    PosMid(v, k0, k1);
    PosMid(h, k0, k1);
    if Pos(h) < Pos(v) { HiMono(Pos(h), Pos(v), W - k1); }
    NextPos(v, k0);
    PosBucket(h, k0);
    MulFacts(a, Pow2(W - k0));
  }

  lemma OneIsPower()
    ensures PowerOfTwo(1) && PowerOfTwo(2)
  {
    PowOne();
  }

  lemma WitnessBits(v: nat, k0: nat, k1: nat, m: nat)
    requires k0 <= k1 && m < Pow2(k1 - k0)
    ensures var h := Mul(Pow2(k0), m) + Lo(v, k0);
            Lo(h, k0) == Lo(v, k0) && Mid(h, k0, k1) == m && h < Pow2(k1)
  {
    hide Rev, Hi, Lo, Pow2, Mul;
    var p := Pow2(k0);
    var h := Mul(p, m) + Lo(v, k0);
    HiLo(h, k0, m, Lo(v, k0));
    PowAdd(k0, k1 - k0);
    MulMono(p, m, Pow2(k1 - k0));
    MulFacts(0, Pow2(k1));
    MulFacts(Pow2(k1), 0);
    HiLo(h, k1, 0, h);
  }

  /** Exactly when a rehashing call visits every hash it is responsible for. */
  lemma VisitsDueIff(v: nat, k0: nat, k1: nat)
    requires k0 <= k1 <= W
    ensures (forall h :: Due(v, k0, h) ==> Visited(v, k0, k1, h)) <==> PowerOfTwo(Mid(v, k0, k1) + 1)
  {
    hide Due, Visited, Mid, PowerOfTwo;
    if PowerOfTwo(Mid(v, k0, k1) + 1) {
      forall h | Due(v, k0, h)
        ensures Visited(v, k0, k1, h)
      {
        CallCovers(v, k0, k1, h);
      }
    } else {
      var h := CallMisses(v, k0, k1);
    }
  }

  // --------------------------------------------------------------- whole runs

  /** What one call sees: the mask bits of its (smaller) table and, during
      rehashing, those of the larger one. */
  datatype Call = Call(k0: nat, k1: nat, rehashing: bool) {
    predicate Ok() { k0 <= k1 <= W }
  }

  /** An entry of hash h is emitted, whichever of the two tables holds it. */
  ghost predicate Reaches(c: Call, v: nat, h: nat)
    requires c.Ok()
  {
    Lo(h, c.k0) == Lo(v, c.k0) && (c.rehashing ==> Visited(v, c.k0, c.k1, h))
  }

  ghost predicate AllOk(calls: seq<Call>) { forall i :: 0 <= i < |calls| ==> calls[i].Ok() }

  /** The cursor given to call i when every result is fed back. */
  function Cursor(calls: seq<Call>, i: nat): nat
    requires i <= |calls| && AllOk(calls)
  {
    if i == 0 then 0 else Next(Cursor(calls, i - 1), calls[i - 1].k0)
  }

  ghost predicate Guarded(calls: seq<Call>)
    requires AllOk(calls)
  {
    forall i :: 0 <= i < |calls| && calls[i].rehashing ==>
      PowerOfTwo(Mid(Cursor(calls, i), calls[i].k0, calls[i].k1) + 1)
  }

  /** A hash not reached so far still lies ahead of the cursor. */
  lemma {:induction false} AheadOrReached(calls: seq<Call>, n: nat, h: nat)
    requires AllOk(calls) && Guarded(calls) && n < |calls|
    ensures Pos(Cursor(calls, n)) <= Pos(h) || exists i :: 0 <= i < n && Reaches(calls[i], Cursor(calls, i), h)
    ensures Reaches(calls[n], Cursor(calls, n), h)
         || (Pos(Cursor(calls, n + 1)) != 0 && Pos(Cursor(calls, n + 1)) <= Pos(h))
         || exists i :: 0 <= i < n && Reaches(calls[i], Cursor(calls, i), h)
  {
    hide Lo, Pos, Next, Mid, PowerOfTwo, Visited, Rev;
    if n == 0 {
      PosZero();
    } else {
      AheadOrReached(calls, n - 1, h);
    }
    var v, c := Cursor(calls, n), calls[n];
    if Due(v, c.k0, h) {
      DueBucket(v, c.k0, h);
      if c.rehashing { CallCovers(v, c.k0, c.k1, h); }
    }
  }

  lemma PosZero()
    ensures Pos(0) == 0
  {
    RevZero(W);
  }

  /** A scan that starts at 0 and ends at 0 reaches every hash, whatever the
      table sizes did in between, provided each rehashing call is complete. */
  lemma ScanCoverage(calls: seq<Call>, h: nat)
    requires AllOk(calls) && Guarded(calls) && |calls| > 0 && Cursor(calls, |calls|) == 0
    ensures exists i :: 0 <= i < |calls| && Reaches(calls[i], Cursor(calls, i), h)
  {
    hide Lo, Pos, Next, Mid, PowerOfTwo, Visited, Rev, Reaches;
    AheadOrReached(calls, |calls| - 1, h);
    PosZero();
  }

  /** Sizes that only grow, or shrink by at most half between a call and a
      following rehashing call, keep every call complete. */
  lemma GrowthIsGuarded(calls: seq<Call>)
    requires AllOk(calls)
    requires forall i :: 1 <= i < |calls| && calls[i].rehashing ==> calls[i - 1].k0 <= calls[i].k0 + 1
    ensures Guarded(calls)
  {
    hide Lo, Pos, Next, Mid, PowerOfTwo, Rev, Hi;
    forall i | 0 <= i < |calls| && calls[i].rehashing
      ensures PowerOfTwo(Mid(Cursor(calls, i), calls[i].k0, calls[i].k1) + 1)
    {
      var v, c := Cursor(calls, i), calls[i];
      PowOne();
      if i > 0 {
        NextLow(Cursor(calls, i - 1), calls[i - 1].k0);
        PowMono(calls[i - 1].k0, c.k0 + 1);
      } else {
        PowMono(0, c.k0 + 1);
      }
      SmallMid(v, c.k0, c.k1);
    }
  }

  lemma SmallMid(v: nat, k0: nat, k1: nat)
    requires k0 <= k1 && v < Pow2(k0 + 1)
    ensures PowerOfTwo(Mid(v, k0, k1) + 1)
  {
    TopBit(v, k0 + 1);
    MidBits(v, k0, k1);
    HiLeq(Hi(v, k0), k1 - k0);
    PowOne();
    assert Mid(v, k0, k1) <= 1;
  }

  lemma HiLeq(x: nat, d: nat)
    ensures Lo(x, d) <= x
  {
    hide Mul, Lo;
    assert x == Mul(Pow2(d), Hi(x, d)) + Lo(x, d);
  }

  /** A table shrinks from 16 to 4 buckets after the first call. */
  function ShrinkingRun(): seq<Call> {
    [Call(4, 4, false), Call(2, 4, true), Call(2, 4, true), Call(2, 4, true), Call(2, 4, true)]
  }

  lemma CursorStep(calls: seq<Call>, i: nat)
    requires 0 < i <= |calls| && AllOk(calls)
    ensures Cursor(calls, i) == Next(Cursor(calls, i - 1), calls[i - 1].k0)
  {}

  lemma ShrinkingCursors()
    ensures var r := ShrinkingRun();
            && AllOk(r) && Cursor(r, 0) == 0 && Cursor(r, 1) == 8 && Cursor(r, 2) == 2
            && Cursor(r, 3) == 1 && Cursor(r, 4) == 3 && Cursor(r, 5) == 0
  {
    SmallWords();
    hide Lo, Next, Mid, Pow2;
    var r := ShrinkingRun();
    assert AllOk(r) && Cursor(r, 0) == 0;
    hide Cursor;
    CursorStep(r, 1);
    CursorStep(r, 2);
    CursorStep(r, 3);
    CursorStep(r, 4);
    CursorStep(r, 5);
  }

  /** That run ends at 0 without ever reaching hash 4. */
  lemma ShrinkMissesAHash()
    ensures var r := ShrinkingRun();
            AllOk(r) && Cursor(r, |r|) == 0
            && forall i :: 0 <= i < |r| ==> !Reaches(r[i], Cursor(r, i), 4)
  {
    SmallWords();
    ShrinkingCursors();
    hide Lo, Next, Mid, Pow2, Cursor;
  }

  lemma SmallWords()
    ensures Next(0, 4) == 8 && Next(8, 2) == 2 && Next(2, 2) == 1 && Next(1, 2) == 3 && Next(3, 2) == 0
    ensures Lo(4, 4) == 4 && Lo(0, 4) == 0 && Lo(4, 2) == 0 && Lo(2, 2) == 2 && Lo(1, 2) == 1 && Lo(3, 2) == 3
    ensures Mid(4, 2, 4) == 1 && Mid(8, 2, 4) == 2
  {
    Powers();
    SmallRevs();
    hide Rev, Next;
    NextLow(0, 4);
    NextLow(8, 2);
    NextLow(2, 2);
    NextLow(1, 2);
    NextLow(3, 2);
  }

  lemma SmallRevs()
    ensures Rev(0, 4) == 0 && Rev(1, 4) == 8
    ensures Rev(0, 2) == 0 && Rev(1, 2) == 2 && Rev(2, 2) == 1 && Rev(3, 2) == 3
  {
    Powers();
    RevZero(4);
    RevZero(3);
    RevZero(2);
    RevBit(0);
    RevBit(1);
  }

  lemma Powers()
    ensures Pow2(0) == 1 && Pow2(1) == 2 && Pow2(2) == 4 && Pow2(3) == 8 && Pow2(4) == 16
  {
    assert Pow2(4) == 2 * Pow2(3) == 4 * Pow2(2);
  }
}
