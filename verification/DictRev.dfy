// rev() of dict.c and the cursor arithmetic of dictScan on 64-bit words, and
// what they are on the numbers that the words stand for.
module DictRev {
  import opened Dict
  import opened DictScan

  function Bit(v: bv64, i: bv64): bv64
    requires i < 64
  {
    (v >> i) & 1
  }

  /** The mask when the swap distance is s: blocks of s ones. */
  function MaskOf(s: bv64): bv64 {
    if s == 64 then 0xFFFF_FFFF_FFFF_FFFF
    else if s == 32 then 0x0000_0000_FFFF_FFFF
    else if s == 16 then 0x0000_FFFF_0000_FFFF
    else if s == 8 then 0x00FF_00FF_00FF_00FF
    else if s == 4 then 0x0F0F_0F0F_0F0F_0F0F
    else if s == 2 then 0x3333_3333_3333_3333
    else 0x5555_5555_5555_5555
  }

  predicate Distance(s: bv64) {
    s == 1 || s == 2 || s == 4 || s == 8 || s == 16 || s == 32 || s == 64
  }

  function S32(v: bv64): bv64 { ((v >> 32) & 0x0000_0000_FFFF_FFFF) | ((v << 32) & 0xFFFF_FFFF_0000_0000) }

  function S16(v: bv64): bv64 { ((v >> 16) & 0x0000_FFFF_0000_FFFF) | ((v << 16) & 0xFFFF_0000_FFFF_0000) }

  function S8(v: bv64): bv64 { ((v >> 8) & 0x00FF_00FF_00FF_00FF) | ((v << 8) & 0xFF00_FF00_FF00_FF00) }

  function S4(v: bv64): bv64 { ((v >> 4) & 0x0F0F_0F0F_0F0F_0F0F) | ((v << 4) & 0xF0F0_F0F0_F0F0_F0F0) }

  function S2(v: bv64): bv64 { ((v >> 2) & 0x3333_3333_3333_3333) | ((v << 2) & 0xCCCC_CCCC_CCCC_CCCC) }

  function S1(v: bv64): bv64 { ((v >> 1) & 0x5555_5555_5555_5555) | ((v << 1) & 0xAAAA_AAAA_AAAA_AAAA) }

  /** Swap neighbouring blocks of s bits. */
  function Swap(v: bv64, s: bv64): bv64 {
    if s == 32 then S32(v)
    else if s == 16 then S16(v)
    else if s == 8 then S8(v)
    else if s == 4 then S4(v)
    else if s == 2 then S2(v)
    else S1(v)
  }

  /** What the swaps still to come after distance s make of v. */
  function Remaining(v: bv64, s: bv64): bv64 {
    if s == 64 then Swap(Swap(Swap(Swap(Swap(Swap(v, 32), 16), 8), 4), 2), 1)
    else if s == 32 then Swap(Swap(Swap(Swap(Swap(v, 16), 8), 4), 2), 1)
    else if s == 16 then Swap(Swap(Swap(Swap(v, 8), 4), 2), 1)
    else if s == 8 then Swap(Swap(Swap(v, 4), 2), 1)
    else if s == 4 then Swap(Swap(v, 2), 1)
    else if s == 2 then Swap(v, 1)
    else v
  }

  lemma RemainingForm(v: bv64)
    ensures Remaining(v, 64) == S1(S2(S4(S8(S16(S32(v))))))
  {
    hide S1, S2, S4, S8, S16, S32;
  }

  /** The six swaps put bit 63 - i in place i. */
  lemma SwapsReverse(v: bv64, i: bv64)
    requires i < 64
    ensures Bit(S1(S2(S4(S8(S16(S32(v)))))), i) == Bit(v, 63 - i)
  {}

  lemma RemainingReverses(v: bv64, i: bv64)
    requires i < 64
    ensures Bit(Remaining(v, 64), i) == Bit(v, 63 - i)
  {
    hide Remaining, S1, S2, S4, S8, S16, S32, Bit;
    RemainingForm(v);
    SwapsReverse(v, i);
  }

  lemma NextMask(s: bv64)
    requires Distance(s) && s != 1
    ensures Distance(s >> 1) && s >> 1 < s && s >> 1 < 64
    ensures Shrunk(MaskOf(s), s >> 1) == MaskOf(s >> 1)
  {}

  lemma NextSwap(v: bv64, s: bv64)
    requires Distance(s) && s != 1
    ensures s >> 1 < 64 && Remaining(Swap(v, s >> 1), s >> 1) == Remaining(v, s)
  {
    hide Swap;
  }

  /** One turn of the loop on v. */
  function Blocks(v: bv64, s: bv64, mask: bv64): bv64
    requires s < 64
  {
    ((v >> s) & mask) | ((v << s) & !mask)
  }

  lemma BlocksSwap(v: bv64, s: bv64)
    requires Distance(s) && s < 64
    ensures Blocks(v, s, MaskOf(s)) == Swap(v, s)
  {}

  ghost predicate Reversed(v: bv64, v0: bv64) {
    forall i: bv64 :: i < 64 ==> Bit(v, i) == Bit(v0, 63 - i)
  }

  /** The loop of rev before the turn that halves distance s. */
  ghost predicate Reversing(v: bv64, s: bv64, mask: bv64, v0: bv64) {
    Distance(s) && mask == MaskOf(s) && Remaining(v, s) == Remaining(v0, 64)
  }

  function Shrunk(mask: bv64, s: bv64): bv64
    requires s < 64
  {
    mask ^ (mask << s)
  }

  lemma ReverseTurn(v: bv64, s: bv64, mask: bv64, v0: bv64)
    requires Reversing(v, s, mask, v0) && s != 1
    ensures s >> 1 < s && s >> 1 < 64
    ensures Reversing(Blocks(v, s >> 1, Shrunk(mask, s >> 1)), s >> 1, Shrunk(mask, s >> 1), v0)
  {
    hide Swap, Remaining, MaskOf, Blocks, Distance;
    NextMask(s);
    NextSwap(v, s);
    BlocksSwap(v, s >> 1);
  }

  lemma ReverseDone(v: bv64, mask: bv64, v0: bv64)
    requires Reversing(v, 1, mask, v0)
    ensures Reversed(v, v0)
  {
    AllReversed(v0);
    hide Reversed;
  }

  lemma ReverseStart(v: bv64)
    ensures Reversing(v, 64, 0xFFFF_FFFF_FFFF_FFFF, v)
  {
    hide Remaining;
  }

  /** rev: bit i of the result is bit 63 - i of v, for each of the 64 bits. */
  method ReverseWord(v0: bv64) returns (v: bv64)
    ensures Reversed(v, v0)
  {
    hide Reversing, Reversed, Blocks, Shrunk;
    v := v0;
    var s: bv64 := 64;
    var mask: bv64 := 0xFFFF_FFFF_FFFF_FFFF;
    ReverseStart(v0);
    while s != 1
      invariant Reversing(v, s, mask, v0)
      decreases s
    {
      ReverseTurn(v, s, mask, v0);
      s := s >> 1;
      mask := Shrunk(mask, s);
      v := Blocks(v, s, mask);
    }
    ReverseDone(v, mask, v0);
  }

  lemma AllReversed(v: bv64)
    ensures Reversed(Remaining(v, 64), v)
  {
    hide Bit, Remaining;
    forall i: bv64 | i < 64
      ensures Bit(Remaining(v, 64), i) == Bit(v, 63 - i)
    {
      RemainingReverses(v, i);
    }
  }

  // -------------------------------------------------------- words as numbers

  /** A bit position as a number. */
  function Index(i: bv64): nat {
    if i == 0 then 0 else Index(i - 1) + 1
  }

  function BitNat(v: bv64, i: bv64): (b: nat)
    requires i < 64
    ensures b <= 1
  {
    if Bit(v, i) == 1 then 1 else 0
  }

  /** The number formed by bits i - 1 down to 0. */
  function LowValue(v: bv64, i: bv64): nat
    requires i <= 64
    decreases i
  {
    if i == 0 then 0 else LowValue(v, i - 1) + Mul(Pow2(Index(i - 1)), BitNat(v, i - 1))
  }

  /** The number that a word stands for. */
  function Value(v: bv64): nat { LowValue(v, 64) }

  lemma {:induction false} IndexAdd(i: bv64, j: bv64)
    requires i <= 64 && j <= 64
    ensures Index(i + j) == Index(i) + Index(j)
    decreases j
  {
    if j != 0 {
      IndexAdd(i, j - 1);
      assert i + j != 0 && i + j - 1 == i + (j - 1);
    }
  }

  lemma IndexWord()
    ensures Index(64) == 64
  {
    assert Index(1) == 1 + Index(0) == 1;
    IndexAdd(1, 1);
    IndexAdd(2, 2);
    IndexAdd(4, 4);
    IndexAdd(8, 8);
    IndexAdd(16, 16);
    IndexAdd(32, 32);
  }

  lemma IndexNext(i: bv64)
    requires i < 64
    ensures Index(i + 1) == Index(i) + 1 && i + 1 <= 64 && i + 1 > i && i + 1 - 1 == i
  {}

  lemma LowStep(v: bv64, i: bv64)
    requires i < 64
    ensures i + 1 <= 64 && LowValue(v, i + 1) == LowValue(v, i) + Mul(Pow2(Index(i)), BitNat(v, i))
  {
    hide BitNat, Pow2, Mul, Index;
    assert i + 1 != 0 && i + 1 - 1 == i;
  }

  /** The top bit and the others. */
  lemma LowParts(v: bv64, i: bv64)
    requires i < 64
    ensures LowValue(v, i) < Pow2(Index(i))
    ensures i + 1 <= 64 && Hi(LowValue(v, i + 1), Index(i)) == BitNat(v, i) && Lo(LowValue(v, i + 1), Index(i)) == LowValue(v, i)
  {
    LowBound(v, i);
    LowStep(v, i);
    hide LowValue, BitNat, Pow2, Mul, Hi, Lo;
    HiLo(LowValue(v, i + 1), Index(i), BitNat(v, i), LowValue(v, i));
  }

  lemma {:induction false} LowBound(v: bv64, i: bv64)
    requires i <= 64
    ensures LowValue(v, i) < Pow2(Index(i))
    decreases i
  {
    if i != 0 {
      LowBound(v, i - 1);
      MulFacts(Pow2(Index(i - 1)), 0);
      MulFacts(0, Pow2(Index(i - 1)));
      MulFacts(1, Pow2(Index(i - 1)));
      hide Mul, BitNat;
    }
  }

  // ------------------------------------------------------- rev() as a number

  /** The number formed by bits 0 to i - 1, bit 0 the highest. */
  function Mirror(v: bv64, i: bv64): nat
    requires i <= 64
    decreases i
  {
    if i == 0 then 0 else 2 * Mirror(v, i - 1) + BitNat(v, i - 1)
  }

  lemma {:induction false} MirrorIsRev(v: bv64, i: bv64)
    requires i <= 64
    ensures Mirror(v, i) == Rev(LowValue(v, i), Index(i))
    decreases i
  {
    hide BitNat, Pow2, Mul, Hi, Lo, Rev;
    if i == 0 {
      RevZero(0);
    } else {
      MirrorIsRev(v, i - 1);
      LowParts(v, i - 1);
      LowBound(v, i);
      assert i - 1 + 1 == i;
      RevTop(LowValue(v, i), Index(i));
    }
  }

  /** The number formed by bits 63 down to i. */
  function HighValue(v: bv64, i: bv64): nat
    requires i <= 64
    decreases 64 - i
  {
    if i == 64 then 0 else 2 * HighValue(v, i + 1) + BitNat(v, i)
  }

  lemma HighStep(v: bv64, i: bv64)
    requires i < 64
    ensures i + 1 <= 64 && HighValue(v, i) == 2 * HighValue(v, i + 1) + BitNat(v, i)
  {
    hide BitNat;
  }

  lemma MirrorStep(v: bv64, i: bv64)
    requires i < 64
    ensures i + 1 <= 64 && Mirror(v, i + 1) == 2 * Mirror(v, i) + BitNat(v, i)
  {
    hide BitNat;
    assert i + 1 != 0 && i + 1 - 1 == i;
  }

  lemma SameBit(v: bv64, v0: bv64, i: bv64)
    requires i < 64 && Reversed(v, v0)
    ensures 63 - i < 64 && BitNat(v, i) == BitNat(v0, 63 - i)
  {
    hide Bit;
    assert Bit(v, i) == Bit(v0, 63 - i);
  }

  lemma Opposite(i: bv64)
    requires i < 64
    ensures 63 - i < 64 && 63 - i + 1 == 64 - i && 64 - (i + 1) == 63 - i && 64 - (i + 1) < 64 - i
  {}

  lemma {:induction false} HighIsMirror(v: bv64, v0: bv64, i: bv64)
    requires i <= 64 && Reversed(v, v0)
    ensures HighValue(v, i) == Mirror(v0, 64 - i)
    decreases 64 - i
  {
    if i != 64 {
      Opposite(i);
      HighStep(v, i);
      MirrorStep(v0, 63 - i);
      SameBit(v, v0, i);
      hide HighValue, Mirror, BitNat, Reversed;
      HighIsMirror(v, v0, i + 1);
    }
  }

  lemma HighLowStep(v: bv64, i: bv64)
    requires i < 64
    ensures i + 1 <= 64
    ensures Mul(Pow2(Index(i)), HighValue(v, i)) + LowValue(v, i) ==
            Mul(Pow2(Index(i + 1)), HighValue(v, i + 1)) + LowValue(v, i + 1)
  {
    hide BitNat, Mul, HighValue, LowValue, Index, Pow2;
    HighStep(v, i);
    LowStep(v, i);
    IndexNext(i);
    PowSucc(Index(i));
    MulTwice(Pow2(Index(i)), HighValue(v, i + 1), BitNat(v, i));
  }

  lemma HighLowEnd(v: bv64)
    ensures Mul(Pow2(Index(64)), HighValue(v, 64)) + LowValue(v, 64) == Value(v)
  {
    hide Mul, Pow2, Index, LowValue;
    MulFacts(Pow2(Index(64)), 0);
    MulFacts(0, Pow2(Index(64)));
  }

  lemma {:induction false} HighLow(v: bv64, i: bv64)
    requires i <= 64
    ensures Mul(Pow2(Index(i)), HighValue(v, i)) + LowValue(v, i) == Value(v)
    decreases 64 - i
  {
    hide BitNat, Mul, HighValue, LowValue, Index, Pow2, Value;
    if i == 64 {
      HighLowEnd(v);
    } else {
      Opposite(i);
      HighLowStep(v, i);
      HighLow(v, i + 1);
    }
  }

  lemma MulTwice(p: nat, h: nat, b: nat)
    ensures Mul(2 * p, h) + Mul(p, b) == Mul(p, 2 * h + b)
  {
    MulAdd(p, 2 * h, b);
    MulAdd(p, h, h);
    MulAdd(h, p, p);
    MulFacts(2 * p, h);
    MulFacts(p, h);
    hide Mul;
  }

  /** Reversing the bits of a word reverses its number. */
  lemma ReversedIsRev(v: bv64, v0: bv64)
    requires Reversed(v, v0)
    ensures Value(v) == Rev(Value(v0), W)
  {
    HighLow(v, 0);
    IndexWord();
    PowOne();
    MulFacts(1, HighValue(v, 0));
    HighIsMirror(v, v0, 0);
    MirrorIsRev(v0, 64);
    hide Mirror, HighValue, Mul, Rev, Reversed;
    assert LowValue(v, 0) == 0 && Index(0) == 0;
  }

  lemma {:induction false} ZeroLow(i: bv64)
    requires i <= 64
    ensures LowValue(0, i) == 0
    decreases i
  {
    if i != 0 {
      ZeroLow(i - 1);
      MulFacts(0, Pow2(Index(i - 1)));
      assert Bit(0, i - 1) == 0;
    }
  }

  lemma ZeroValue()
    ensures Value(0) == 0
  {
    ZeroLow(64);
  }

  // ------------------------------------------------- incrementing a cursor

  predicate Ones(v: bv64, i: bv64)
    requires i < 64
  {
    v & ((1 << i) - 1) == (1 << i) - 1
  }

  lemma Carry(v: bv64, i: bv64)
    requires i < 64
    ensures Bit(v + 1, i) == 1 <==> if Ones(v, i) then Bit(v, i) != 1 else Bit(v, i) == 1
  {}

  lemma OnesStep(v: bv64, i: bv64)
    requires i < 63
    ensures Ones(v, i + 1) <==> Ones(v, i) && Bit(v, i) == 1
  {}

  lemma OrBit(v: bv64, m: bv64, i: bv64)
    requires i < 64
    ensures Bit(v | !m, i) == if Bit(m, i) == 1 then Bit(v, i) else 1
  {}

  /** Adding one below bit i: a carry goes in exactly if these bits are all ones. */
  lemma {:induction false} IncLow(v: bv64, i: bv64)
    requires i <= 64
    ensures LowValue(v + 1, i) == if LowValue(v, i) + 1 < Pow2(Index(i)) then LowValue(v, i) + 1 else 0
    ensures i < 64 ==> (Ones(v, i) <==> LowValue(v, i) + 1 == Pow2(Index(i)))
    decreases i
  {
    hide BitNat, Mul, LowValue, Index, Pow2, Ones;
    if i == 0 {
      IncZero(v);
    } else {
      IncLow(v, i - 1);
      IncStep(v, i - 1);
      assert i - 1 + 1 == i;
    }
  }

  lemma IncZero(v: bv64)
    ensures LowValue(v, 0) == LowValue(v + 1, 0) == 0 && Pow2(Index(0)) == 1 && Ones(v, 0)
  {}

  lemma IncStep(v: bv64, i: bv64)
    requires i < 64
    requires LowValue(v + 1, i) == if LowValue(v, i) + 1 < Pow2(Index(i)) then LowValue(v, i) + 1 else 0
    requires Ones(v, i) <==> LowValue(v, i) + 1 == Pow2(Index(i))
    ensures i + 1 <= 64
    ensures LowValue(v + 1, i + 1) == if LowValue(v, i + 1) + 1 < Pow2(Index(i + 1)) then LowValue(v, i + 1) + 1 else 0
    ensures i + 1 < 64 ==> (Ones(v, i + 1) <==> LowValue(v, i + 1) + 1 == Pow2(Index(i + 1)))
  {
    hide BitNat, Mul, LowValue, Index, Pow2, Ones;
    var p := Pow2(Index(i));
    LowStep(v, i);
    LowStep(v + 1, i);
    LowBound(v, i);
    IndexNext(i);
    PowSucc(Index(i));
    MulFacts(p, 0);
    MulFacts(0, p);
    MulFacts(1, p);
    BitStep(v, i);
  }

  lemma BitStep(v: bv64, i: bv64)
    requires i < 64
    ensures BitNat(v + 1, i) == if Ones(v, i) then 1 - BitNat(v, i) else BitNat(v, i)
    ensures i + 1 < 64 ==> i < 63 && (Ones(v, i + 1) <==> Ones(v, i) && BitNat(v, i) == 1)
  {
    Carry(v, i);
    hide Bit, Ones;
    if i < 63 { OnesStep(v, i); }
  }

  /** v++ on the number. */
  lemma IncValue(v: bv64)
    ensures Value(v + 1) == Lo(Value(v) + 1, W)
  {
    hide LowValue, Index, Pow2, Lo;
    IncLow(v, 64);
    IndexWord();
    LowBound(v, 64);
    Wrap(Value(v) + 1, W);
  }

  // ------------------------------------------------------------------- masks

  /** The k lowest bits are set, as in the sizemask of a table of 2^k buckets. */
  ghost predicate MaskBits(m: bv64, k: nat) {
    forall i: bv64 :: i < 64 ==> (Bit(m, i) == 1 <==> Index(i) < k)
  }

  /** v |= ~m0 below bit i. */
  lemma {:induction false} OrLow(v: bv64, m: bv64, k: nat, i: bv64)
    requires i <= 64 && MaskBits(m, k)
    ensures LowValue(v | !m, i) == if Index(i) <= k then LowValue(v, i) else Lo(LowValue(v, i), k) + Pow2(Index(i)) - Pow2(k)
    decreases i
  {
    hide BitNat, Mul, LowValue, Index, Pow2, MaskBits, Lo;
    if i == 0 {
      OrZero(v, m);
    } else {
      OrLow(v, m, k, i - 1);
      OrStep(v, m, k, i - 1);
      assert i - 1 + 1 == i;
    }
  }

  lemma OrZero(v: bv64, m: bv64)
    ensures LowValue(v | !m, 0) == LowValue(v, 0) && Index(0) == 0
  {}

  lemma OrStep(v: bv64, m: bv64, k: nat, i: bv64)
    requires i < 64 && MaskBits(m, k)
    requires LowValue(v | !m, i) == if Index(i) <= k then LowValue(v, i) else Lo(LowValue(v, i), k) + Pow2(Index(i)) - Pow2(k)
    ensures i + 1 <= 64
    ensures LowValue(v | !m, i + 1) ==
            if Index(i + 1) <= k then LowValue(v, i + 1) else Lo(LowValue(v, i + 1), k) + Pow2(Index(i + 1)) - Pow2(k)
  {
    hide BitNat, Mul, LowValue, Index, Pow2, MaskBits, Lo;
    var n, b := Index(i), BitNat(v, i);
    LowStep(v, i);
    LowStep(v | !m, i);
    IndexNext(i);
    OrNat(v, m, k, i);
    if n >= k {
      PowSucc(n);
      MulFacts(Pow2(n), 0);
      MulFacts(0, Pow2(n));
      MulFacts(1, Pow2(n));
      LoAdd(LowValue(v, i), n, b, k);
      if n == k {
        LowBound(v, i);
        LoSmall(LowValue(v, i), k);
      }
    }
  }

  lemma OrNat(v: bv64, m: bv64, k: nat, i: bv64)
    requires i < 64 && MaskBits(m, k)
    ensures BitNat(v | !m, i) == if Index(i) < k then BitNat(v, i) else 1
  {
    hide Bit;
    OrBit(v, m, i);
  }

  lemma LoSmall(x: nat, k: nat)
    requires x < Pow2(k)
    ensures Lo(x, k) == x
  {
    hide Mul, Lo, Hi, Pow2;
    MulFacts(0, Pow2(k));
    MulFacts(Pow2(k), 0);
    HiLo(x, k, 0, x);
  }

  /** Bits from n on do not matter below k. */
  lemma LoAdd(x: nat, n: nat, b: nat, k: nat)
    requires k <= n
    ensures Lo(x + Mul(Pow2(n), b), k) == Lo(x, k)
  {
    hide Mul, Lo, Hi, Pow2;
    var p, q := Pow2(k), Pow2(n - k);
    PowAdd(k, n - k);
    MulAssoc(p, q, b);
    MulAdd(p, Hi(x, k), Mul(q, b));
    HiLo(x + Mul(Pow2(n), b), k, Hi(x, k) + Mul(q, b), Lo(x, k));
  }

  /** v |= ~m0 on the number. */
  lemma OrValue(v: bv64, m: bv64, k: nat)
    requires k <= W && MaskBits(m, k)
    ensures Pow2(k) <= Pow2(W) && Value(v | !m) == SetUnmasked(Value(v), k)
  {
    hide LowValue, Index, Pow2, Lo, MaskBits;
    PowMono(k, W);
    OrLow(v, m, k, 64);
    IndexWord();
    LowBound(v, 64);
    if k == W { LoSmall(Value(v), W); }
  }

  /** size - 1, for a size of 2^k. */
  method MaskWord(size: nat, ghost k: nat) returns (m: bv64)
    requires size == Pow2(k) && k <= W
    ensures MaskBits(m, k)
  {
    m := 0;
    var p := 1;
    ghost var j := 0;
    NoBits();
    while p < size
      invariant j <= k && p == Pow2(j) && MaskBits(m, j)
      decreases size - p
    {
      if j == k { assert false; }
      OneMoreBit(m, j);
      PowSucc(j);
      m := (m << 1) | 1;
      p, j := 2 * p, j + 1;
    }
    if j < k { PowMono(j + 1, k); PowSucc(j); }
  }

  lemma NoBits()
    ensures MaskBits(0, 0) && Pow2(0) == 1
  {}

  lemma OneMoreBit(m: bv64, j: nat)
    requires MaskBits(m, j)
    ensures MaskBits((m << 1) | 1, j + 1)
  {
    forall i: bv64 | i < 64 ensures Bit((m << 1) | 1, i) == 1 <==> Index(i) < j + 1 {
      ShiftIn(m, i);
      hide Bit;
    }
  }

  lemma ShiftIn(m: bv64, i: bv64)
    requires i < 64
    ensures i == 0 ==> Bit((m << 1) | 1, i) == 1
    ensures i != 0 ==> i - 1 < 64 && Bit((m << 1) | 1, i) == Bit(m, i - 1)
  {}

  /** The end of dictScan on the cursor word: set the unmasked bits, reverse,
      increment, reverse. */
  method NextWord(v0: bv64, m0: bv64, ghost k: nat) returns (v: bv64)
    requires k <= W && MaskBits(m0, k)
    ensures Value(v) == Next(Value(v0), k)
  {
    hide MaskBits, Value, Reversed, Pow2, Lo;
    v := v0 | !m0;
    OrValue(v0, m0, k);
    var r := ReverseWord(v);
    ReversedIsRev(r, v);
    IncValue(r);
    v := ReverseWord(r + 1);
    ReversedIsRev(v, r + 1);
  }
}
