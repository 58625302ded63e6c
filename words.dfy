/**
  Bit-level vocabulary shared by the containers: 16-bit values, 64-bit words,
  the bit of a word, the single-bit mask `1UL << v`, population counts
  (`Util.BitCount(ulong)` in RoaringBitmap/Internal/Util.cs) and the
  lowest-set-bit arithmetic of `BitmapContainer.FillArray`.

  Bit positions are `bv7` values below 64, so that every fact about a single
  word is a bit-vector fact.  The word operators the containers apply are
  named functions (`And`, `Or`, `Xor`, `AndNot`, `Not`, `WithBit`, ...), and
  each comes with a lemma saying which bits the result has; clients reason
  with those lemmas rather than with the operators themselves.
 */
module Words {

  /** A C# `ushort`. */
  type u16 = x: int | 0 <= x < 0x1_0000

  /** A bit position inside a 64-bit word. */
  type BitPos = i: bv7 | i < 64

  /** `ulong.MaxValue`. */
  const AllOnes: bv64 := 0xFFFF_FFFF_FFFF_FFFF

  /** Bit `i` of the word `w`. */
  predicate Bit(w: bv64, i: BitPos)
  {
    (w >> i) & 1 == 1
  }

  // ---------------------------------------------------------------------
  // Positions

  /** The bit pattern of a count below 128, counted up from zero. */
  function Count7(n: nat): bv7
    requires n < 128
  {
    if n == 0 then 0 else Count7(n - 1) + 1
  }

  /** The position `v & 63` that C# uses as the shift count of `1UL << v`. */
  function Pos(v: nat): BitPos
  {
    Count7(v % 64) & 63
  }

  lemma BvInj(p: bv7, q: bv7)
    requires p as int == q as int
    ensures p == q
  {
  }

  lemma PosBound(p: BitPos)
    ensures p as int < 64
  {
  }

  lemma NextInt(i: bv7)
    requires i < 64
    ensures (i + 1) as int == i as int + 1
  {
  }

  lemma LessInt(p: bv7, q: bv7)
    ensures p < q <==> p as int < q as int
  {
  }

  lemma SmallInt(p: bv7)
    requires p as int < 64
    ensures p & 63 == p
  {
  }

  lemma {:induction false} Count7Spec(n: nat)
    requires n < 64
    ensures Count7(n) as int == n
  {
    if n > 0 {
      Count7Spec(n - 1);
      NextInt(Count7(n - 1));
    }
  }

  /** `Pos(v)` is `v % 64`. */
  lemma PosSpec(v: nat)
    ensures Pos(v) as int == v % 64
  {
    Count7Spec(v % 64);
    SmallInt(Count7(v % 64));
  }

  lemma ModOffset(k: nat, q: int)
    requires 0 <= q < 64
    ensures (64 * k + q) % 64 == q
  {
  }

  /** The position of value `64 * k + p` inside its word is `p`. */
  lemma PosOffset(k: nat, p: BitPos)
    ensures Pos(64 * k + p as int) == p
  {
    var q: int := p as int;
    PosBound(p);
    ModOffset(k, q);
    PosSpec(64 * k + q);
    BvInj(Pos(64 * k + q), p);
  }

  /** Two values in the same word are equal exactly when their positions are. */
  lemma SamePos(x: nat, v: nat)
    requires x / 64 == v / 64
    ensures Pos(x) == Pos(v) <==> x == v
  {
    PosSpec(x);
    PosSpec(v);
    assert x == 64 * (x / 64) + x % 64;
    assert v == 64 * (v / 64) + v % 64;
  }

  // ---------------------------------------------------------------------
  // Word operators and the bits they produce

  /** `1UL << p`. */
  function Mask(p: BitPos): bv64
  {
    (1 as bv64) << p
  }

  function And(a: bv64, b: bv64): bv64 { a & b }

  function Or(a: bv64, b: bv64): bv64 { a | b }

  function Xor(a: bv64, b: bv64): bv64 { a ^ b }

  /** `a & ~b`. */
  function AndNot(a: bv64, b: bv64): bv64 { a & !b }

  /** `~a`. */
  function Not(a: bv64): bv64 { !a }

  /** `w | (1UL << p)`: bit `p` set. */
  function WithBit(w: bv64, p: BitPos): bv64 { w | Mask(p) }

  /** `w & ~(1UL << p)`: bit `p` cleared. */
  function WithoutBit(w: bv64, p: BitPos): bv64 { w & !Mask(p) }

  /** `w ^ (1UL << p)`: bit `p` flipped. */
  function FlipBit(w: bv64, p: BitPos): bv64 { w ^ Mask(p) }

  /*
    Each fact is first stated on the operator itself (the `...Op` lemmas, which
    the solver proves on the bit-vector level) and then on the named function.
   */

  lemma MaskBitOp(p: BitPos, i: BitPos)
    ensures Bit((1 as bv64) << p, i) <==> i == p
  {
  }

  lemma MaskBit(p: BitPos, i: BitPos)
    ensures Bit(Mask(p), i) <==> i == p
  {
    MaskBitOp(p, i);
  }

  lemma MaskTestOp(w: bv64, p: BitPos)
    ensures w & ((1 as bv64) << p) != 0 <==> Bit(w, p)
  {
  }

  /** `(w & (1UL << p)) != 0` tests bit `p`. */
  lemma MaskTest(w: bv64, p: BitPos)
    ensures And(w, Mask(p)) != 0 <==> Bit(w, p)
  {
    MaskTestOp(w, p);
  }

  lemma AndBitOp(a: bv64, b: bv64, i: BitPos)
    ensures Bit(a & b, i) <==> Bit(a, i) && Bit(b, i)
  {
  }

  lemma AndBit(a: bv64, b: bv64, i: BitPos)
    ensures Bit(And(a, b), i) <==> Bit(a, i) && Bit(b, i)
  {
    AndBitOp(a, b, i);
  }

  lemma OrBitOp(a: bv64, b: bv64, i: BitPos)
    ensures Bit(a | b, i) <==> Bit(a, i) || Bit(b, i)
  {
  }

  lemma OrBit(a: bv64, b: bv64, i: BitPos)
    ensures Bit(Or(a, b), i) <==> Bit(a, i) || Bit(b, i)
  {
    OrBitOp(a, b, i);
  }

  lemma XorBitOp(a: bv64, b: bv64, i: BitPos)
    ensures Bit(a ^ b, i) <==> Bit(a, i) != Bit(b, i)
  {
  }

  lemma XorBit(a: bv64, b: bv64, i: BitPos)
    ensures Bit(Xor(a, b), i) <==> Bit(a, i) != Bit(b, i)
  {
    XorBitOp(a, b, i);
  }

  lemma AndNotBitOp(a: bv64, b: bv64, i: BitPos)
    ensures Bit(a & !b, i) <==> Bit(a, i) && !Bit(b, i)
  {
  }

  lemma AndNotBit(a: bv64, b: bv64, i: BitPos)
    ensures Bit(AndNot(a, b), i) <==> Bit(a, i) && !Bit(b, i)
  {
    AndNotBitOp(a, b, i);
  }

  lemma NotBitOp(a: bv64, i: BitPos)
    ensures Bit(!a, i) <==> !Bit(a, i)
  {
  }

  lemma NotBit(a: bv64, i: BitPos)
    ensures Bit(Not(a), i) <==> !Bit(a, i)
  {
    NotBitOp(a, i);
  }

  lemma AllOnesBit(i: BitPos)
    ensures Bit(AllOnes, i)
  {
  }

  lemma ZeroBit(i: BitPos)
    ensures !Bit(0, i)
  {
  }

  lemma SetBitAt(w: bv64, p: BitPos, k: BitPos)
    ensures Bit(WithBit(w, p), k) <==> k == p || Bit(w, k)
  {
    OrBit(w, Mask(p), k);
    MaskBit(p, k);
  }

  lemma ClearBitAt(w: bv64, p: BitPos, k: BitPos)
    ensures Bit(WithoutBit(w, p), k) <==> k != p && Bit(w, k)
  {
    AndNotBit(w, Mask(p), k);
    MaskBit(p, k);
  }

  lemma ToggleBitAt(w: bv64, p: BitPos, k: BitPos)
    ensures Bit(FlipBit(w, p), k) <==> (k == p) != Bit(w, k)
  {
    XorBit(w, Mask(p), k);
    MaskBit(p, k);
  }

  // ---------------------------------------------------------------------
  // The cardinality deltas of the in-place array helpers

  /**
    `(previous - after) >> 63` with `after = previous | (1UL << p)`: the
    subtraction wraps to a value with the top bit set exactly when the bit
    was new (`ArrayContainer.OrArray`).
   */
  function OrDelta(w: bv64, p: BitPos): bv64
  {
    (w - (w | ((1 as bv64) << p))) >> 63
  }

  lemma OrDeltaSpec(w: bv64, p: BitPos)
    ensures OrDelta(w, p) == if Bit(w, p) then 0 else 1
  {
  }

  /**
    `(previous & mask) >> p` with `mask = 1UL << p`: the old bit as 0 or 1
    (`ArrayContainer.XorArray`, which adds `1 - 2` times it).
   */
  function XorOld(w: bv64, p: BitPos): bv64
  {
    (w & ((1 as bv64) << p)) >> p
  }

  lemma XorOldSpec(w: bv64, p: BitPos)
    ensures XorOld(w, p) == if Bit(w, p) then 1 else 0
  {
  }

  /**
    `1 - 2 * ((previous & mask) >> p)`, evaluated in `ulong` arithmetic: 1 when
    the bit was clear, and `ulong.MaxValue` (which the `(int)` cast in
    `ArrayContainer.XorArray` reads as -1) when it was set.
   */
  function XorDelta(w: bv64, p: BitPos): bv64
  {
    1 - 2 * XorOld(w, p)
  }

  lemma XorDeltaSpec(w: bv64, p: BitPos)
    ensures XorDelta(w, p) == if Bit(w, p) then AllOnes else 1
  {
    XorOldSpec(w, p);
  }

  /**
    `(previous ^ after) >> p` with `after = previous & ~(1UL << p)`: 1 exactly
    when a set bit was cleared (`ArrayContainer.AndNotArray`).
   */
  function AndNotDelta(w: bv64, p: BitPos): bv64
  {
    (w ^ (w & !((1 as bv64) << p))) >> p
  }

  lemma AndNotDeltaSpec(w: bv64, p: BitPos)
    ensures AndNotDelta(w, p) == if Bit(w, p) then 1 else 0
  {
  }

  // ---------------------------------------------------------------------
  // Words that agree on every bit

  /** The bits of `w` below position `j` are all clear. */
  predicate LowZero(w: bv64, j: bv7)
    requires j <= 64
  {
    w & (((1 as bv64) << j) - 1) == 0
  }

  lemma LowZeroStep(w: bv64, j: bv7)
    requires j < 64
    ensures LowZero(w, j + 1) <==> LowZero(w, j) && !Bit(w, j)
  {
  }

  lemma LowZeroNone(w: bv64)
    ensures LowZero(w, 0)
  {
  }

  /** A word whose 64 bits are all clear is zero. */
  lemma LowZeroAll(w: bv64)
    ensures LowZero(w, 64) <==> w == 0
  {
  }

  lemma {:induction false} LowZeroUpTo(w: bv64, j: bv7, n: bv7)
    requires n <= j <= 64
    requires forall k: BitPos :: k < j ==> !Bit(w, k)
    requires LowZero(w, n)
    ensures LowZero(w, j)
    decreases j - n
  {
    if n < j {
      LowZeroStep(w, n);
      LowZeroUpTo(w, j, n + 1);
    }
  }

  lemma LowZeroBits(w: bv64, j: bv7)
    requires j <= 64
    requires forall k: BitPos :: k < j ==> !Bit(w, k)
    ensures LowZero(w, j)
  {
    LowZeroNone(w);
    LowZeroUpTo(w, j, 0);
  }

  /** A word with no set bit is zero. */
  lemma NoBits(w: bv64)
    requires forall k: BitPos :: !Bit(w, k)
    ensures w == 0
  {
    LowZeroBits(w, 64);
    LowZeroAll(w);
  }

  lemma XorZeroOp(a: bv64, b: bv64)
    requires a ^ b == 0
    ensures a == b
  {
  }

  lemma XorZero(a: bv64, b: bv64)
    requires Xor(a, b) == 0
    ensures a == b
  {
    XorZeroOp(a, b);
  }

  /** Two words are equal when they agree on every bit. */
  lemma WordExt(a: bv64, b: bv64)
    requires forall i: BitPos :: Bit(a, i) == Bit(b, i)
    ensures a == b
  {
    forall k: BitPos ensures !Bit(Xor(a, b), k) {
      XorBit(a, b, k);
    }
    NoBits(Xor(a, b));
    XorZero(a, b);
  }

  // ---------------------------------------------------------------------
  // Population count

  /** Number of set bits of `w` at positions `i` and above. */
  function PopCountFrom(w: bv64, i: bv7): nat
    requires i <= 64
    decreases 64 - i
  {
    if i == 64 then 0 else (if Bit(w, i) then 1 else 0) + PopCountFrom(w, i + 1)
  }

  /** The number of set bits of a word. */
  function PopCount(w: bv64): nat
  {
    PopCountFrom(w, 0)
  }

  lemma {:induction false} PopCountFromBound(w: bv64, i: bv7)
    requires i <= 64
    ensures PopCountFrom(w, i) <= 64 - i as int
    decreases 64 - i
  {
    if i < 64 {
      PopCountFromBound(w, i + 1);
      NextInt(i);
    }
  }

  /** A word with no set bit at or above `i` counts nothing from `i`. */
  lemma {:induction false} PopCountFromClear(w: bv64, i: bv7)
    requires i <= 64
    requires forall k: BitPos :: i <= k ==> !Bit(w, k)
    ensures PopCountFrom(w, i) == 0
    decreases 64 - i
  {
    if i < 64 {
      PopCountFromClear(w, i + 1);
    }
  }

  /** A set bit at or above `i` is counted from `i`. */
  lemma {:induction false} PopCountFromSet(w: bv64, i: bv7, k: BitPos)
    requires i <= k && Bit(w, k)
    ensures PopCountFrom(w, i) > 0
    decreases 64 - i
  {
    if i < k {
      PopCountFromSet(w, i + 1, k);
    }
  }

  /** Only the zero word has no set bit. */
  lemma PopCountZero(w: bv64)
    ensures PopCount(w) == 0 <==> w == 0
  {
    if PopCount(w) == 0 {
      forall k: BitPos ensures !Bit(w, k) {
        if Bit(w, k) {
          PopCountFromSet(w, 0, k);
        }
      }
      NoBits(w);
    } else if w == 0 {
      forall k: BitPos ensures !Bit(w, k) {
        ZeroBit(k);
      }
      PopCountFromClear(w, 0);
    }
  }

  lemma NotZeroOp(w: bv64)
    ensures !w == 0 <==> w == AllOnes
  {
  }

  lemma NotZero(w: bv64)
    ensures Not(w) == 0 <==> w == AllOnes
  {
    NotZeroOp(w);
  }

  /** Complementing a word complements its count. */
  lemma {:induction false} PopCountFromNot(w: bv64, i: bv7)
    requires i <= 64
    ensures PopCountFrom(Not(w), i) == (64 - i as int) - PopCountFrom(w, i)
    decreases 64 - i
  {
    if i < 64 {
      PopCountFromNot(w, i + 1);
      PopCountFromBound(w, i + 1);
      NextInt(i);
      NotBit(w, i);
    }
  }

  lemma PopCountNot(w: bv64)
    ensures PopCount(Not(w)) == 64 - PopCount(w)
  {
    PopCountFromNot(w, 0);
  }

  /**
    `Util.BitCount(ulong)`: the Hamming weight of a word.  The source computes it with
    a SWAR reduction; the model states it as the number of set bits.
   */
  function BitCount(x: bv64): (r: nat)
    ensures r <= 64
    ensures r == 0 <==> x == 0
    ensures r == 64 <==> x == AllOnes
  {
    PopCountFromBound(x, 0);
    PopCountZero(x);
    PopCountZero(Not(x));
    PopCountNot(x);
    NotZero(x);
    PopCount(x)
  }

  /** Words that differ at most in bit `j` differ in count by that bit alone. */
  lemma {:induction false} PopCountFromDiff(a: bv64, b: bv64, j: BitPos, i: bv7)
    requires i <= 64
    requires forall k: BitPos :: k != j ==> Bit(a, k) == Bit(b, k)
    ensures PopCountFrom(a, i) + (if i <= j && Bit(b, j) then 1 else 0)
         == PopCountFrom(b, i) + (if i <= j && Bit(a, j) then 1 else 0)
    decreases 64 - i
  {
    if i < 64 {
      PopCountFromDiff(a, b, j, i + 1);
    }
  }

  lemma PopCountDiff(a: bv64, b: bv64, j: BitPos)
    requires forall k: BitPos :: k != j ==> Bit(a, k) == Bit(b, k)
    ensures PopCount(a) + (if Bit(b, j) then 1 else 0) == PopCount(b) + (if Bit(a, j) then 1 else 0)
  {
    PopCountFromDiff(a, b, j, 0);
  }

  /** Setting bit `p` raises the count by one exactly when the bit was clear. */
  lemma PopCountSet(w: bv64, p: BitPos)
    ensures PopCount(WithBit(w, p)) == PopCount(w) + (if Bit(w, p) then 0 else 1)
  {
    forall k: BitPos | k != p ensures Bit(w, k) == Bit(WithBit(w, p), k) {
      SetBitAt(w, p, k);
    }
    SetBitAt(w, p, p);
    PopCountDiff(w, WithBit(w, p), p);
  }

  /** Clearing bit `p` lowers the count by one exactly when the bit was set. */
  lemma PopCountClear(w: bv64, p: BitPos)
    ensures PopCount(WithoutBit(w, p)) + (if Bit(w, p) then 1 else 0) == PopCount(w)
  {
    forall k: BitPos | k != p ensures Bit(w, k) == Bit(WithoutBit(w, p), k) {
      ClearBitAt(w, p, k);
    }
    ClearBitAt(w, p, p);
    PopCountDiff(w, WithoutBit(w, p), p);
  }

  /** Toggling bit `p` moves the count by one in the direction of the new bit. */
  lemma PopCountToggle(w: bv64, p: BitPos)
    ensures PopCount(FlipBit(w, p)) + (if Bit(w, p) then 1 else 0)
         == PopCount(w) + (if Bit(w, p) then 0 else 1)
  {
    forall k: BitPos | k != p ensures Bit(w, k) == Bit(FlipBit(w, p), k) {
      ToggleBitAt(w, p, k);
    }
    ToggleBitAt(w, p, p);
    PopCountDiff(w, FlipBit(w, p), p);
  }

  // ---------------------------------------------------------------------
  // The lowest set bit

  /** The position of the lowest set bit of `w` at or above `i` (64 when there is none). */
  function LowestFrom(w: bv64, i: bv7): (j: bv7)
    requires i <= 64
    decreases 64 - i
  {
    if i == 64 then 64 else if Bit(w, i) then i else LowestFrom(w, i + 1)
  }

  lemma {:induction false} LowestFromSpec(w: bv64, i: bv7)
    requires i <= 64
    ensures i <= LowestFrom(w, i) <= 64
    ensures LowestFrom(w, i) < 64 ==> Bit(w, LowestFrom(w, i))
    decreases 64 - i
  {
    if i < 64 {
      LowestFromSpec(w, i + 1);
    }
  }

  lemma {:induction false} LowestFromClear(w: bv64, i: bv7, k: BitPos)
    requires i <= k < LowestFrom(w, i)
    ensures !Bit(w, k)
    decreases 64 - i
  {
    if i < k {
      LowestFromClear(w, i + 1, k);
    }
  }

  /** The lowest set bit of a non-zero word, with nothing set below it. */
  lemma Lowest(w: bv64) returns (j: BitPos)
    requires w != 0
    ensures Bit(w, j)
    ensures forall k: BitPos :: k < j ==> !Bit(w, k)
  {
    LowestFromSpec(w, 0);
    var i := LowestFrom(w, 0);
    forall k: BitPos | k < i ensures !Bit(w, k) {
      LowestFromClear(w, 0, k);
    }
    if i == 64 {
      NoBits(w);
    }
    j := i;
  }

  /** `bitset & (~bitset + 1)`: the mask of the lowest set bit. */
  function LowestBit(w: bv64): bv64
  {
    w & (!w + 1)
  }

  /** `t - 1`: the bits below the single bit of `t`. */
  function Below(t: bv64): bv64
  {
    t - 1
  }

  lemma IsolateOp(w: bv64, j: BitPos)
    requires Bit(w, j) && w & (((1 as bv64) << j) - 1) == 0
    ensures w & (!w + 1) == (1 as bv64) << j
  {
  }

  lemma IsolateAt(w: bv64, j: BitPos)
    requires Bit(w, j) && LowZero(w, j)
    ensures LowestBit(w) == Mask(j)
  {
    IsolateOp(w, j);
  }

  lemma BelowMaskSet(j: BitPos, k: BitPos)
    requires k < j
    ensures Bit(((1 as bv64) << j) - 1, k)
  {
  }

  lemma BelowMaskClear(j: BitPos, k: BitPos)
    requires j <= k
    ensures !Bit(((1 as bv64) << j) - 1, k)
  {
  }

  lemma BelowMaskAt(j: BitPos, k: BitPos)
    ensures Bit(Below(Mask(j)), k) <==> k < j
  {
    if k < j {
      BelowMaskSet(j, k);
    } else {
      BelowMaskClear(j, k);
    }
  }

  lemma {:induction false} PopCountFromBelow(j: BitPos, i: bv7)
    requires i <= 64
    ensures PopCountFrom(Below(Mask(j)), i) == if i < j then j as int - i as int else 0
    decreases 64 - i
  {
    if i < 64 {
      PopCountFromBelow(j, i + 1);
      BelowMaskAt(j, i);
      NextInt(i);
      LessInt(i, j);
    }
  }

  /** `BitCount(t - 1)` for `t = 1UL << j` is `j`. */
  lemma PopCountBelow(j: BitPos)
    ensures PopCount(Below(Mask(j))) == j as int
  {
    PopCountFromBelow(j, 0);
  }

  lemma ClearLowestAt(w: bv64, j: BitPos, k: BitPos)
    requires Bit(w, j)
    ensures Bit(Xor(w, Mask(j)), k) <==> k != j && Bit(w, k)
  {
    XorBit(w, Mask(j), k);
    MaskBit(j, k);
  }

  /**
    One step of the `FillArray` inner loop: `t = bitset & (~bitset + 1)` is the
    mask of the lowest set bit `j`, `BitCount(t - 1)` is `j`, and `bitset ^ t`
    keeps every other bit.
   */
  lemma LowestStep(w: bv64) returns (j: BitPos)
    requires w != 0
    ensures Bit(w, j)
    ensures forall k: BitPos :: k < j ==> !Bit(w, k)
    ensures LowestBit(w) == Mask(j)
    ensures PopCount(Below(LowestBit(w))) == j as int
    ensures forall k: BitPos :: Bit(Xor(w, LowestBit(w)), k) <==> k != j && Bit(w, k)
  {
    j := Lowest(w);
    LowZeroBits(w, j);
    IsolateAt(w, j);
    PopCountBelow(j);
    forall k: BitPos ensures Bit(Xor(w, Mask(j)), k) <==> k != j && Bit(w, k) {
      ClearLowestAt(w, j, k);
    }
  }
}
