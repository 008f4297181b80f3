/** Shifts, masks, alignment, and the bit reversal of stb_vorbis.c, on unsigned words. */
module Bits {
  import opened Arithmetic

  function Pow2(n: nat): (p: nat)
    ensures p > 0
  {
    if n == 0 then 1 else 2 * Pow2(n - 1)
  }

  const WORD: nat := Pow2(32)

  /** `x & ((1 << k) - 1)` */
  function Low(x: nat, k: nat): (r: nat)
    ensures r < Pow2(k)
  {
    if k == 0 then 0 else x % 2 + 2 * Low(x / 2, k - 1)
  }

  /** `x >> k` */
  function High(x: nat, k: nat): nat {
    if k == 0 then x else High(x / 2, k - 1)
  }

  /** The lowest `k` bits are clear. */
  predicate Aligned(a: nat, k: nat) {
    Low(a, k) == 0
  }

  lemma {:induction false} Pow2Monotone(m: nat, n: nat)
    requires m <= n
    ensures Pow2(m) <= Pow2(n)
    ensures m < n ==> 2 * Pow2(m) <= Pow2(n)
    decreases n
  {
    if m < n {
      Pow2Monotone(m, n - 1);
    }
  }

  lemma {:induction false} Pow2Add(m: nat, n: nat)
    ensures Pow2(m + n) == Pow2(m) * Pow2(n)
    decreases n
  {
    if n > 0 {
      Pow2Add(m, n - 1);
      DoubleFactor(Pow2(m), Pow2(n - 1));
    }
  }

  lemma DoubleFactor(p: int, q: int)
    ensures 2 * (p * q) == p * (2 * q)
  {
  }

  lemma {:induction false} LowHigh(x: nat, k: nat)
    ensures x == Low(x, k) + High(x, k) * Pow2(k)
  {
    if k > 0 {
      LowHigh(x / 2, k - 1);
      DoubleFactor(High(x, k), Pow2(k - 1));
    }
  }

  /** The parts of a word are unique. */
  lemma {:induction false} PartsOf(a: nat, b: nat, k: nat)
    requires a < Pow2(k)
    ensures Low(a + b * Pow2(k), k) == a && High(a + b * Pow2(k), k) == b
    decreases k
  {
    if k > 0 {
      var h := b * Pow2(k - 1);
      DoubleFactor(b, Pow2(k - 1));
      assert (a + 2 * h) % 2 == a % 2 && (a + 2 * h) / 2 == a / 2 + h;
      PartsOf(a / 2, b, k - 1);
    }
  }

  lemma {:induction false} LowOfLow(x: nat, k: nat, m: nat)
    requires k <= m
    ensures Low(Low(x, m), k) == Low(x, k)
    decreases k
  {
    if k > 0 {
      var y := Low(x, m);
      Halve(x % 2, Low(x / 2, m - 1));
      assert y % 2 == x % 2 && y / 2 == Low(x / 2, m - 1);
      LowOfLow(x / 2, k - 1, m - 1);
      assert Low(y, k) == y % 2 + 2 * Low(y / 2, k - 1);
    }
  }

  lemma Halve(b: nat, h: nat)
    requires b < 2
    ensures (b + 2 * h) % 2 == b && (b + 2 * h) / 2 == h
  {
  }

  lemma {:induction false} LowOfSmall(x: nat, k: nat)
    requires x < Pow2(k)
    ensures Low(x, k) == x && High(x, k) == 0
    decreases k
  {
    if k > 0 {
      LowOfSmall(x / 2, k - 1);
    }
  }

  lemma {:induction false} HighOfHigh(x: nat, k: nat, m: nat)
    ensures High(High(x, k), m) == High(x, k + m)
    decreases k
  {
    if k > 0 {
      HighOfHigh(x / 2, k - 1, m);
    }
  }

  // ---------------------------------------------------------------- Alignment

  lemma {:induction false} AlignedSmaller(a: nat, k: nat, m: nat)
    requires Aligned(a, m) && k <= m
    ensures Aligned(a, k)
    decreases k
  {
    if k > 0 {
      AlignedSmaller(a / 2, k - 1, m - 1);
    }
  }

  lemma {:induction false} AlignedAdd(a: nat, b: nat, k: nat)
    requires Aligned(a, k) && Aligned(b, k)
    ensures Aligned(a + b, k)
    decreases k
  {
    if k > 0 {
      assert a % 2 == 0 && b % 2 == 0 && (a + b) / 2 == a / 2 + b / 2;
      AlignedAdd(a / 2, b / 2, k - 1);
    }
  }

  lemma {:induction false} Pow2Aligned(m: nat, k: nat)
    requires k <= m
    ensures Aligned(Pow2(m), k)
    decreases k
  {
    if k > 0 {
      Pow2Aligned(m - 1, k - 1);
    }
  }

  lemma {:induction false} ZeroAligned(k: nat)
    ensures Aligned(0, k)
  {
    if k > 0 {
      ZeroAligned(k - 1);
    }
  }

  /** Aligned blocks of the same size are the same or do not meet. */
  lemma {:induction false} AlignedApart(a: nat, b: nat, k: nat)
    requires Aligned(a, k) && Aligned(b, k) && a < b
    ensures a + Pow2(k) <= b
    decreases k
  {
    if k > 0 {
      assert a % 2 == 0 && b % 2 == 0;
      AlignedApart(a / 2, b / 2, k - 1);
    }
  }

  // ---------------------------------------------------------------- Bit reversal

  /** The lowest `k` bits of `n` in reverse order. */
  function Rev(n: nat, k: nat): (r: nat)
    ensures r < Pow2(k)
    decreases k
  {
    if k == 0 then 0
    else (if n % 2 == 1 then Pow2(k - 1) else 0) + Rev(n / 2, k - 1)
  }

  /** Reversing a word puts its low part, reversed, on top of its high part, reversed. */
  lemma {:induction false} RevSplit(n: nat, l: nat, m: nat)
    ensures Rev(n, l + m) == Rev(Low(n, l), l) * Pow2(m) + Rev(High(n, l), m)
    decreases l
  {
    if l > 0 {
      var low := Low(n / 2, l - 1);
      assert (n % 2 + 2 * low) % 2 == n % 2 && (n % 2 + 2 * low) / 2 == low;
      RevSplit(n / 2, l - 1, m);
      Pow2Add(l - 1, m);
      var top := if n % 2 == 1 then Pow2(l - 1) else 0;
      Distribute(top, Rev(low, l - 1), Pow2(m));
    }
  }

  lemma Distribute(x: int, y: int, q: int)
    ensures (x + y) * q == x * q + y * q
  {
  }

  lemma {:induction false} RevZero(k: nat)
    ensures Rev(0, k) == 0
  {
    if k > 0 {
      RevZero(k - 1);
    }
  }

  lemma {:induction false} RevInvolution(n: nat, k: nat)
    requires n < Pow2(k)
    ensures Rev(Rev(n, k), k) == n
  {
    if k > 0 {
      var r, b := Rev(n / 2, k - 1), n % 2;
      RevInvolution(n / 2, k - 1);
      PartsOf(r, b, k - 1);
      RevIsParts(n, k);
      RevOfTop(Rev(n, k), k - 1, b);
    }
  }

  lemma RevIsParts(n: nat, k: nat)
    requires k > 0
    ensures Rev(n, k) == Rev(n / 2, k - 1) + (n % 2) * Pow2(k - 1)
  {
  }

  lemma RevOfTop(x: nat, m: nat, b: nat)
    requires High(x, m) == b < 2
    ensures Rev(x, m + 1) == 2 * Rev(Low(x, m), m) + b
  {
    RevSplit(x, m, 1);
    RevOfBit(b);
    TwiceIs(Rev(Low(x, m), m), Pow2(1));
  }

  lemma TwiceIs(x: nat, two: nat)
    requires two == 2
    ensures x * two == 2 * x
  {
  }

  lemma RevOfBit(b: nat)
    requires b < 2
    ensures Rev(b, 1) == b && Pow2(1) == 2
  {
  }

  lemma {:induction false} RevOfAligned(addr: nat, m: nat, len: nat)
    requires Aligned(addr, m)
    ensures Rev(addr, m + len) == Rev(High(addr, m), len)
  {
    RevSplit(addr, m, len);
    RevZero(m);
  }

  /** A word begins with a codeword (in its low bits) exactly when its reversal lies in the codeword's block. */
  lemma BeginsIffInBlock(x: nat, addr: nat, len: nat)
    requires x < WORD && len <= 32 && addr < WORD && Aligned(addr, 32 - len)
    ensures Low(x, len) == Rev(addr, 32) <==> addr <= Rev(x, 32) < addr + Pow2(32 - len)
    ensures Rev(addr, 32) < Pow2(len)
  {
    var m := 32 - len;
    var a, h := Low(x, len), High(addr, m);
    LowHigh(addr, m);
    RevOfAligned(addr, m, len);
    RevSplit(x, len, m);
    Pow2Add(len, m);
    BoundQuotient(h, Pow2(m), Pow2(len));
    RevInvolution(h, len);
    RevInvolution(a, len);
    BlockIffQuotient(Rev(a, len), Rev(High(x, len), m), h, Pow2(m));
  }

  lemma BoundQuotient(h: nat, p: nat, q: nat)
    requires h * p < q * p
    ensures h < q
  {
    if q <= h {
      MulMonotone(q, h, p);
    }
  }

  lemma BlockIffQuotient(p: nat, r: nat, h: nat, d: nat)
    requires r < d
    ensures p == h <==> h * d <= p * d + r < h * d + d
  {
    if p < h {
      MulMonotone(p + 1, h, d);
    } else if h < p {
      MulMonotone(h + 1, p, d);
    }
  }

  /** Bit `i` of a word. */
  function Bit(x: nat, i: nat): nat {
    High(x, i) % 2
  }

  /** Reversal moves every bit to the mirrored place. */
  lemma {:induction false} RevMirrors(n: nat, k: nat, i: nat)
    requires i < k
    ensures Bit(Rev(n, k), i) == Bit(n, k - 1 - i)
    decreases k
  {
    var r, b := Rev(n / 2, k - 1), n % 2;
    RevIsParts(n, k);
    if i == k - 1 {
      PartsOf(r, b, k - 1);
    } else {
      RevMirrors(n / 2, k - 1, i);
      BitBelow(r, b, k - 1, i);
    }
  }

  lemma {:induction false} BitBelow(r: nat, b: nat, k: nat, i: nat)
    requires i < k
    ensures Bit(r + b * Pow2(k), i) == Bit(r, i)
    decreases i
  {
    DoubleFactor(b, Pow2(k - 1));
    var h := b * Pow2(k - 1);
    assert (r + 2 * h) % 2 == r % 2 && (r + 2 * h) / 2 == r / 2 + h;
    if i > 0 {
      BitBelow(r / 2, b, k - 1, i - 1);
    }
  }

  // The steps of the shift-and-mask reversal of the source, on machine words.

  function SwapOnes(n: bv32): bv32 { ((n & 0xAAAAAAAA) >> 1) | ((n & 0x55555555) << 1) }

  function SwapTwos(n: bv32): bv32 { ((n & 0xCCCCCCCC) >> 2) | ((n & 0x33333333) << 2) }

  function SwapFours(n: bv32): bv32 { ((n & 0xF0F0F0F0) >> 4) | ((n & 0x0F0F0F0F) << 4) }

  function SwapEights(n: bv32): bv32 { ((n & 0xFF00FF00) >> 8) | ((n & 0x00FF00FF) << 8) }

  function SwapHalves(n: bv32): bv32 { (n >> 16) | (n << 16) }

  function BitReverse(n: bv32): bv32 {
    SwapHalves(SwapEights(SwapFours(SwapTwos(SwapOnes(n)))))
  }

  predicate IsSet(n: bv32, i: bv6)
    requires i < 32
  {
    (n >> i) & 1 == 1
  }

  lemma SwapsOnes(n: bv32, i: bv6)
    requires i < 32
    ensures IsSet(SwapOnes(n), i) <==> IsSet(n, i ^ 1)
  {
  }

  lemma SwapsTwos(n: bv32, i: bv6)
    requires i < 32
    ensures IsSet(SwapTwos(n), i) <==> IsSet(n, i ^ 2)
  {
  }

  lemma SwapsFours(n: bv32, i: bv6)
    requires i < 32
    ensures IsSet(SwapFours(n), i) <==> IsSet(n, i ^ 4)
  {
  }

  lemma SwapsEights(n: bv32, i: bv6)
    requires i < 32
    ensures IsSet(SwapEights(n), i) <==> IsSet(n, i ^ 8)
  {
  }

  lemma SwapsHalves(n: bv32, i: bv6)
    requires i < 32
    ensures IsSet(SwapHalves(n), i) <==> IsSet(n, i ^ 16)
  {
  }

  lemma SwappedPlace(i: bv6)
    requires i < 32
    ensures i ^ 16 < 32 && i ^ 16 ^ 8 < 32 && i ^ 16 ^ 8 ^ 4 < 32 && i ^ 16 ^ 8 ^ 4 ^ 2 < 32
    ensures i ^ 16 ^ 8 ^ 4 ^ 2 ^ 1 == 31 - i
  {
  }

  /** It moves every bit to the mirrored place, too. */
  lemma BitReverseMirrors(n: bv32, i: bv6)
    requires i < 32
    ensures IsSet(BitReverse(n), i) <==> IsSet(n, 31 - i)
  {
    hide IsSet, SwapOnes, SwapTwos, SwapFours, SwapEights, SwapHalves;
    SwappedPlace(i);
    var n1 := SwapOnes(n);
    var n2 := SwapTwos(n1);
    var n3 := SwapFours(n2);
    SwapsHalves(SwapEights(n3), i);
    SwapsEights(n3, i ^ 16);
    SwapsFours(n2, i ^ 16 ^ 8);
    SwapsTwos(n1, i ^ 16 ^ 8 ^ 4);
    SwapsOnes(n, i ^ 16 ^ 8 ^ 4 ^ 2);
  }

  // ---------------------------------------------------------------- Machine words and numbers

  /** The number with the lowest `k` bits of a machine word. */
  function WordOf(n: bv32, k: nat): (x: nat)
    ensures x < Pow2(k)
    decreases k
  {
    if k == 0 then 0 else (if n & 1 == 1 then 1 else 0) + 2 * WordOf(n >> 1, k - 1)
  }

  function Shr(n: bv32, i: nat): bv32
    decreases i
  {
    if i == 0 then n else Shr(n >> 1, i - 1)
  }

  /** `i` as a shift amount. */
  function Amount(i: nat): bv6 {
    if i == 0 then 0 else Amount(i - 1) + 1
  }

  lemma AmountStep(i: nat)
    ensures i == 0 ==> Amount(i) == 0
    ensures i > 0 ==> Amount(i) == Amount(i - 1) + 1
  {
  }

  lemma SumStep(a: bv6, b: bv6, c: bv6, d: bv6, sum: bv6)
    requires b == a + 1 && d == c + 1 && c == sum + a
    ensures d == sum + b
  {
  }

  lemma {:induction false} AmountAdd(i: nat, j: nat)
    ensures Amount(i + j) == Amount(i) + Amount(j)
  {
    hide Amount;
    AmountStep(j);
    if j > 0 {
      AmountStep(i + j);
      AmountAdd(i, j - 1);
      SumStep(Amount(j - 1), Amount(j), Amount(i + j - 1), Amount(i + j), Amount(i));
    }
  }

  lemma AmountHalves(i: nat)
    ensures Amount(i) == Amount(i / 2) + Amount(i / 2) + (if i % 2 == 1 then 1 else 0)
  {
    hide Amount;
    AmountAdd(i / 2, i / 2);
    AmountStep(0);
    AmountStep(i);
    if i % 2 == 1 {
      assert i / 2 + i / 2 == i - 1;
    } else {
      assert i / 2 + i / 2 == i;
    }
  }

  lemma AmountBound(i: nat)
    requires i < 32
    ensures Amount(i) < 32
  {
    hide Amount;
    AmountHalves(i);
    AmountHalves(i / 2);
    AmountHalves(i / 2 / 2);
    AmountHalves(i / 2 / 2 / 2);
    assert i / 2 / 2 / 2 / 2 == 0 || i / 2 / 2 / 2 / 2 == 1;
    SmallAmounts();
  }

  lemma SmallAmounts()
    ensures Amount(0) == 0 && Amount(1) == 1 && Amount(31) == 31
  {
    assert Amount(7) == 7;
    AmountHalves(15);
    AmountHalves(31);
  }

  lemma {:induction false} ShrIs(n: bv32, i: nat)
    requires i < 32
    ensures Amount(i) < 32 && Shr(n, i) == n >> Amount(i)
    decreases i
  {
    AmountBound(i);
    if i > 0 {
      ShrIs(n >> 1, i - 1);
      TwoShifts(n, Amount(i - 1));
    }
  }

  lemma TwoShifts(n: bv32, b: bv6)
    requires b < 31
    ensures (n >> 1) >> b == n >> (b + 1)
  {
  }

  function BitAt(n: bv32, i: nat): nat {
    if Shr(n, i) & 1 == 1 then 1 else 0
  }

  lemma {:induction false} WordBits(n: bv32, k: nat, i: nat)
    requires i < k
    ensures Bit(WordOf(n, k), i) == BitAt(n, i)
    decreases i
  {
    if i > 0 {
      WordBits(n >> 1, k - 1, i - 1);
      HalfOfWord(if n & 1 == 1 then 1 else 0, WordOf(n >> 1, k - 1));
    }
  }

  lemma HalfOfWord(b: nat, x: nat)
    requires b < 2
    ensures (b + 2 * x) / 2 == x && (b + 2 * x) % 2 == b
  {
  }

  lemma {:induction false} SameBits(x: nat, y: nat, k: nat)
    requires x < Pow2(k) && y < Pow2(k) && forall i: nat | i < k :: Bit(x, i) == Bit(y, i)
    ensures x == y
    decreases k
  {
    if k > 0 {
      assert Bit(x, 0) == Bit(y, 0);
      forall i: nat | i < k - 1
        ensures Bit(x / 2, i) == Bit(y / 2, i)
      {
        assert Bit(x, i + 1) == Bit(y, i + 1);
      }
      SameBits(x / 2, y / 2, k - 1);
    }
  }

  /** The five steps of the source compute the reversal that the tables are specified with. */
  lemma BitReverseIsRev(n: bv32)
    ensures WordOf(BitReverse(n), 32) == Rev(WordOf(n, 32), 32)
  {
    hide BitReverse, WordOf, Rev, Bit, Pow2;
    forall i: nat | i < 32
      ensures Bit(WordOf(BitReverse(n), 32), i) == Bit(Rev(WordOf(n, 32), 32), i)
    {
      WordBits(BitReverse(n), 32, i);
      RevMirrors(WordOf(n, 32), 32, i);
      WordBits(n, 32, 31 - i);
      BitAtMirrors(n, i);
    }
    SameBits(WordOf(BitReverse(n), 32), Rev(WordOf(n, 32), 32), 32);
  }

  lemma BitAtIs(n: bv32, i: nat)
    requires i < 32
    ensures Amount(i) < 32 && BitAt(n, i) == if IsSet(n, Amount(i)) then 1 else 0
  {
    hide Shr, Amount;
    ShrIs(n, i);
  }

  lemma BitAtMirrors(n: bv32, i: nat)
    requires i < 32
    ensures BitAt(BitReverse(n), i) == BitAt(n, 31 - i)
  {
    hide BitReverse, BitAt, IsSet, Amount;
    BitAtIs(BitReverse(n), i);
    BitAtIs(n, 31 - i);
    AmountAdd(i, 31 - i);
    SmallAmounts();
    Difference(Amount(i), Amount(31 - i));
    BitReverseMirrors(n, Amount(i));
  }

  lemma Difference(a: bv6, b: bv6)
    requires a + b == 31
    ensures b == 31 - a
  {
  }
}
