/**
  A bitmap as a sequence of 64-bit words: value `v` is present when bit
  `v & 63` of word `v >> 6` is set (RoaringBitmap/BitmapContainer.cs).  This
  module gives the bitmap its meaning (the increasing list of its members and
  their number) and describes, as folds over the values, what the construction
  loops and the word-wise loops of the container leave in the words.
 */
module BitmapWords {
  import opened Words
  import opened Sorted

  /** Bit `v` of a bitmap: bit `v & 63` of word `v >> 6`. */
  predicate BitIn(ws: seq<bv64>, v: nat)
    requires v / 64 < |ws|
  {
    Bit(ws[v / 64], Pos(v))
  }

  /** Every value is addressable in the bitmap. */
  predicate InRange(ws: seq<bv64>, vals: seq<int>)
  {
    forall i :: 0 <= i < |vals| ==> 0 <= vals[i] < 64 * |ws|
  }

  /** The number of set bits, word by word: the sum `Util.BitCount(ulong[])` accumulates. */
  function Count(ws: seq<bv64>): nat
    decreases |ws|
  {
    if |ws| == 0 then 0 else Count(ws[..|ws| - 1]) + PopCount(ws[|ws| - 1])
  }

  /** The members held by word `k` at positions `i` and above, in increasing order. */
  function WordElems(w: bv64, k: nat, i: bv7): seq<int>
    requires i <= 64
    decreases 64 - i
  {
    if i == 64 then []
    else (if Bit(w, i) then [64 * k + i as int] else []) + WordElems(w, k, i + 1)
  }

  /** The members of a bitmap in increasing order: what the container's enumerator yields. */
  function Enumerate(ws: seq<bv64>): seq<int>
    decreases |ws|
  {
    if |ws| == 0 then [] else Enumerate(ws[..|ws| - 1]) + WordElems(ws[|ws| - 1], |ws| - 1, 0)
  }

  lemma {:induction false} WordElemsCount(w: bv64, k: nat, i: bv7)
    requires i <= 64
    ensures |WordElems(w, k, i)| == PopCountFrom(w, i)
    decreases 64 - i
  {
    if i < 64 {
      WordElemsCount(w, k, i + 1);
    }
  }

  /** Word `k` lists exactly its set bits, as values `64 * k + p`, in increasing order. */
  lemma {:induction false} WordElemsSpec(w: bv64, k: nat, i: bv7)
    requires i <= 64
    ensures Increasing(WordElems(w, k, i))
    ensures forall x :: x in WordElems(w, k, i) <==>
      64 * k + i as int <= x < 64 * k + 64 && Bit(w, Pos(x))
    decreases 64 - i
  {
    if i < 64 {
      WordElemsSpec(w, k, i + 1);
      NextInt(i);
      PosBound(i);
      PosOffset(k, i);
      var head := if Bit(w, i) then [64 * k + i as int] else [];
      assert WordElems(w, k, i) == head + WordElems(w, k, i + 1);
      IncreasingAppend(head, WordElems(w, k, i + 1));
    }
  }

  lemma WordOf(ws: seq<bv64>, x: int, k: nat)
    requires 64 * k <= x < 64 * k + 64
    ensures x / 64 == k
  {
  }

  /** The enumeration lists exactly the set bits of the bitmap, increasing, and as many as the count. */
  lemma {:induction false} EnumerateSpec(ws: seq<bv64>)
    ensures Increasing(Enumerate(ws))
    ensures |Enumerate(ws)| == Count(ws)
    ensures forall x :: x in Enumerate(ws) <==> 0 <= x < 64 * |ws| && BitIn(ws, x)
    decreases |ws|
  {
    if |ws| > 0 {
      var n := |ws| - 1;
      var front := ws[..n];
      EnumerateSpec(front);
      WordElemsSpec(ws[n], n, 0);
      WordElemsCount(ws[n], n, 0);
      forall x | 0 <= x < 64 * |ws| ensures BitIn(ws, x) <==> (x < 64 * n && BitIn(front, x)) || (64 * n <= x && Bit(ws[n], Pos(x))) {
        if x < 64 * n {
          assert x / 64 < n;
          assert front[x / 64] == ws[x / 64];
        } else {
          WordOf(ws, x, n);
        }
      }
      IncreasingAppend(Enumerate(front), WordElems(ws[n], n, 0));
    }
  }

  /** The enumeration of one more word appends that word's members. */
  lemma EnumerateNext(ws: seq<bv64>, k: nat)
    requires k < |ws|
    ensures Enumerate(ws[..k + 1]) == Enumerate(ws[..k]) + WordElems(ws[k], k, 0)
  {
    assert ws[..k + 1][..k] == ws[..k];
  }

  /** The count of one more word adds that word's population count. */
  lemma CountNext(ws: seq<bv64>, k: nat)
    requires k < |ws|
    ensures Count(ws[..k + 1]) == Count(ws[..k]) + PopCount(ws[k])
  {
    assert ws[..k + 1][..k] == ws[..k];
  }

  /** Replacing one word changes the count by the difference of the two words' counts. */
  lemma {:induction false} CountUpdate(ws: seq<bv64>, i: nat, w: bv64)
    requires i < |ws|
    ensures Count(ws[i := w]) + PopCount(ws[i]) == Count(ws) + PopCount(w)
    decreases |ws|
  {
    var n := |ws| - 1;
    if i < n {
      CountUpdate(ws[..n], i, w);
      assert ws[i := w][..n] == ws[..n][i := w];
    } else {
      assert ws[i := w][..n] == ws[..n];
    }
  }

  /** Words that skip no set bit between positions `i` and `j` list the same members from either. */
  lemma {:induction false} WordElemsSkip(w: bv64, k: nat, i: bv7, j: bv7)
    requires i <= j <= 64
    requires forall p: BitPos :: i <= p < j ==> !Bit(w, p)
    ensures WordElems(w, k, i) == WordElems(w, k, j)
    decreases j - i
  {
    if i < j {
      assert !Bit(w, i);
      WordElemsSkip(w, k, i + 1, j);
    }
  }

  /** Words that agree from position `i` upwards list the same members from there. */
  lemma {:induction false} WordElemsAgree(a: bv64, b: bv64, k: nat, i: bv7)
    requires i <= 64
    requires forall p: BitPos :: i <= p ==> Bit(a, p) == Bit(b, p)
    ensures WordElems(a, k, i) == WordElems(b, k, i)
    decreases 64 - i
  {
    if i < 64 {
      WordElemsAgree(a, b, k, i + 1);
    }
  }

  lemma WordElemsHead(w: bv64, k: nat, j: BitPos)
    requires Bit(w, j)
    ensures WordElems(w, k, j) == [64 * k + j as int] + WordElems(w, k, j + 1)
  {
  }

  /**
    One step of `FillArray`'s inner loop on the word `w`: `t = w & (~w + 1)` is
    the mask of the lowest set bit `j`, `BitCount(t - 1)` is `j`, and the word
    `w ^ t` left for the next step lists exactly the members of `w` after the
    first one, `64 * k + j`.
   */
  lemma WordElemsLowest(w: bv64, k: nat) returns (j: BitPos)
    requires w != 0
    ensures PopCount(Below(LowestBit(w))) == j as int
    ensures WordElems(w, k, 0) == [64 * k + j as int] + WordElems(Xor(w, LowestBit(w)), k, 0)
    ensures PopCount(Xor(w, LowestBit(w))) + 1 == PopCount(w)
  {
    var rest := Xor(w, LowestBit(w));
    j := LowestStep(w);
    WordElemsSkip(w, k, 0, j);
    WordElemsAgree(w, rest, k, j + 1);
    WordElemsSkip(rest, k, 0, j + 1);
    WordElemsHead(w, k, j);
    PopCountDiff(w, rest, j);
  }

  /** A bitmap of `n` zero words. */
  function Zeros(n: nat): (ws: seq<bv64>)
    ensures |ws| == n
  {
    seq(n, _ => 0)
  }

  /** A bitmap of `n` all-ones words. */
  function Ones(n: nat): (ws: seq<bv64>)
    ensures |ws| == n
  {
    seq(n, _ => AllOnes)
  }

  lemma {:induction false} CountZeros(n: nat)
    ensures Count(Zeros(n)) == 0
  {
    if n > 0 {
      CountZeros(n - 1);
      assert Zeros(n)[..n - 1] == Zeros(n - 1);
      PopCountZero(0);
    }
  }

  lemma {:induction false} CountOnes(n: nat)
    ensures Count(Ones(n)) == 64 * n
  {
    if n > 0 {
      CountOnes(n - 1);
      assert Ones(n)[..n - 1] == Ones(n - 1);
      assert BitCount(AllOnes) == 64;
    }
  }

  /** Set bit `v`: `m_Bitmap[v >> 6] |= 1UL << v`. */
  function SetBit(ws: seq<bv64>, v: nat): seq<bv64>
    requires v / 64 < |ws|
  {
    ws[v / 64 := WithBit(ws[v / 64], Pos(v))]
  }

  /** Clear bit `v`: `m_Bitmap[v >> 6] &= ~(1UL << v)`. */
  function ClearBit(ws: seq<bv64>, v: nat): seq<bv64>
    requires v / 64 < |ws|
  {
    ws[v / 64 := WithoutBit(ws[v / 64], Pos(v))]
  }

  /** Toggle bit `v`: `data[v >> 6] ^= 1UL << v`. */
  function ToggleBit(ws: seq<bv64>, v: nat): seq<bv64>
    requires v / 64 < |ws|
  {
    ws[v / 64 := FlipBit(ws[v / 64], Pos(v))]
  }

  /** The words after setting the bits of `vals` one after another. */
  function SetBits(ws: seq<bv64>, vals: seq<int>): (r: seq<bv64>)
    requires InRange(ws, vals)
    ensures |r| == |ws|
    decreases |vals|
  {
    if |vals| == 0 then ws
    else SetBit(SetBits(ws, vals[..|vals| - 1]), vals[|vals| - 1])
  }

  /** The words after clearing the bits of `vals` one after another. */
  function ClearBits(ws: seq<bv64>, vals: seq<int>): (r: seq<bv64>)
    requires InRange(ws, vals)
    ensures |r| == |ws|
    decreases |vals|
  {
    if |vals| == 0 then ws
    else ClearBit(ClearBits(ws, vals[..|vals| - 1]), vals[|vals| - 1])
  }

  /** The words after toggling the bits of `vals` one after another. */
  function ToggleBits(ws: seq<bv64>, vals: seq<int>): (r: seq<bv64>)
    requires InRange(ws, vals)
    ensures |r| == |ws|
    decreases |vals|
  {
    if |vals| == 0 then ws
    else ToggleBit(ToggleBits(ws, vals[..|vals| - 1]), vals[|vals| - 1])
  }

  lemma SetBitSame(ws: seq<bv64>, v: nat)
    requires v / 64 < |ws|
    ensures SetBit(ws, v)[v / 64] == WithBit(ws[v / 64], Pos(v))
  {
  }

  lemma SetBitOther(ws: seq<bv64>, v: nat, j: nat)
    requires v / 64 < |ws| && j < |ws| && j != v / 64
    ensures SetBit(ws, v)[j] == ws[j]
  {
  }

  lemma SetBitWordAt(ws: seq<bv64>, v: nat, p: BitPos)
    requires v / 64 < |ws|
    ensures Bit(SetBit(ws, v)[v / 64], p) <==> p == Pos(v) || Bit(ws[v / 64], p)
  {
    SetBitSame(ws, v);
    Words.SetBitAt(ws[v / 64], Pos(v), p);
  }


  lemma SetBitAt(ws: seq<bv64>, v: nat, x: nat)
    requires v / 64 < |ws| && x / 64 < |ws|
    ensures BitIn(SetBit(ws, v), x) <==> BitIn(ws, x) || x == v
  {
    if x / 64 == v / 64 {
      SamePos(x, v);
      SetBitWordAt(ws, v, Pos(x));
    } else {
      SetBitOther(ws, v, x / 64);
    }
  }


  lemma ClearBitSame(ws: seq<bv64>, v: nat)
    requires v / 64 < |ws|
    ensures ClearBit(ws, v)[v / 64] == WithoutBit(ws[v / 64], Pos(v))
  {
  }

  lemma ClearBitOther(ws: seq<bv64>, v: nat, j: nat)
    requires v / 64 < |ws| && j < |ws| && j != v / 64
    ensures ClearBit(ws, v)[j] == ws[j]
  {
  }

  lemma ClearBitWordAt(ws: seq<bv64>, v: nat, p: BitPos)
    requires v / 64 < |ws|
    ensures Bit(ClearBit(ws, v)[v / 64], p) <==> p != Pos(v) && Bit(ws[v / 64], p)
  {
    ClearBitSame(ws, v);
    Words.ClearBitAt(ws[v / 64], Pos(v), p);
  }


  lemma ClearBitAt(ws: seq<bv64>, v: nat, x: nat)
    requires v / 64 < |ws| && x / 64 < |ws|
    ensures BitIn(ClearBit(ws, v), x) <==> BitIn(ws, x) && x != v
  {
    if x / 64 == v / 64 {
      SamePos(x, v);
      ClearBitWordAt(ws, v, Pos(x));
    } else {
      ClearBitOther(ws, v, x / 64);
    }
  }


  lemma ToggleBitSame(ws: seq<bv64>, v: nat)
    requires v / 64 < |ws|
    ensures ToggleBit(ws, v)[v / 64] == FlipBit(ws[v / 64], Pos(v))
  {
  }

  lemma ToggleBitOther(ws: seq<bv64>, v: nat, j: nat)
    requires v / 64 < |ws| && j < |ws| && j != v / 64
    ensures ToggleBit(ws, v)[j] == ws[j]
  {
  }

  lemma ToggleBitWordAt(ws: seq<bv64>, v: nat, p: BitPos)
    requires v / 64 < |ws|
    ensures Bit(ToggleBit(ws, v)[v / 64], p) <==> (p == Pos(v)) != Bit(ws[v / 64], p)
  {
    ToggleBitSame(ws, v);
    Words.ToggleBitAt(ws[v / 64], Pos(v), p);
  }


  lemma ToggleBitAt(ws: seq<bv64>, v: nat, x: nat)
    requires v / 64 < |ws| && x / 64 < |ws|
    ensures BitIn(ToggleBit(ws, v), x) <==> BitIn(ws, x) != (x == v)
  {
    if x / 64 == v / 64 {
      SamePos(x, v);
      ToggleBitWordAt(ws, v, Pos(x));
    } else {
      ToggleBitOther(ws, v, x / 64);
    }
  }


  /** After setting the bits of `vals`, bit `x` is set iff it was or `x` is one of the values. */
  lemma {:induction false} SetBitsSpec(ws: seq<bv64>, vals: seq<int>, x: nat)
    requires InRange(ws, vals) && x < 64 * |ws|
    ensures BitIn(SetBits(ws, vals), x) <==> BitIn(ws, x) || x in vals
    decreases |vals|
  {
    if |vals| > 0 {
      var n := |vals| - 1;
      SetBitsSpec(ws, vals[..n], x);
      SetBitAt(SetBits(ws, vals[..n]), vals[n], x);
      assert vals == vals[..n] + [vals[n]];
    }
  }

  /** After clearing the bits of `vals`, bit `x` is set iff it was and `x` is none of the values. */
  lemma {:induction false} ClearBitsSpec(ws: seq<bv64>, vals: seq<int>, x: nat)
    requires InRange(ws, vals) && x < 64 * |ws|
    ensures BitIn(ClearBits(ws, vals), x) <==> BitIn(ws, x) && x !in vals
    decreases |vals|
  {
    if |vals| > 0 {
      var n := |vals| - 1;
      ClearBitsSpec(ws, vals[..n], x);
      ClearBitAt(ClearBits(ws, vals[..n]), vals[n], x);
      assert vals == vals[..n] + [vals[n]];
    }
  }

  /** After toggling the bits of distinct `vals`, bit `x` is flipped iff `x` is one of the values. */
  lemma {:induction false} ToggleBitsSpec(ws: seq<bv64>, vals: seq<int>, x: nat)
    requires InRange(ws, vals) && Increasing(vals) && x < 64 * |ws|
    ensures BitIn(ToggleBits(ws, vals), x) <==> BitIn(ws, x) != (x in vals)
    decreases |vals|
  {
    if |vals| > 0 {
      var n := |vals| - 1;
      ToggleBitsSpec(ws, vals[..n], x);
      ToggleBitAt(ToggleBits(ws, vals[..n]), vals[n], x);
      assert vals == vals[..n] + [vals[n]];
      assert vals[n] !in vals[..n];
    }
  }

  /** A bitmap that differs from `ws` only in word `i` differs in count by that word alone. */
  lemma CountReplace(ws: seq<bv64>, t: seq<bv64>, i: nat)
    requires i < |ws| == |t| && t == ws[i := t[i]]
    ensures Count(t) + PopCount(ws[i]) == Count(ws) + PopCount(t[i])
  {
    CountUpdate(ws, i, t[i]);
  }

  /** Setting a clear bit adds one to the count; setting a set bit adds nothing. */
  lemma CountSetBit(ws: seq<bv64>, v: nat)
    requires v / 64 < |ws|
    ensures Count(SetBit(ws, v)) == Count(ws) + (if BitIn(ws, v) then 0 else 1)
  {
    var k := v / 64;
    var t := SetBit(ws, v);
    SetBitSame(ws, v);
    CountReplace(ws, t, k);
    PopCountSet(ws[k], Pos(v));
  }

  /** Clearing a set bit removes one from the count; clearing a clear bit removes nothing. */
  lemma CountClearBit(ws: seq<bv64>, v: nat)
    requires v / 64 < |ws|
    ensures Count(ClearBit(ws, v)) + (if BitIn(ws, v) then 1 else 0) == Count(ws)
  {
    var k := v / 64;
    var t := ClearBit(ws, v);
    ClearBitSame(ws, v);
    CountReplace(ws, t, k);
    PopCountClear(ws[k], Pos(v));
  }

  /** Toggling a bit moves the count by one, up when the bit was clear and down when it was set. */
  lemma CountToggleBit(ws: seq<bv64>, v: nat)
    requires v / 64 < |ws|
    ensures Count(ToggleBit(ws, v)) + (if BitIn(ws, v) then 1 else 0) == Count(ws) + (if BitIn(ws, v) then 0 else 1)
  {
    var k := v / 64;
    var t := ToggleBit(ws, v);
    ToggleBitSame(ws, v);
    CountReplace(ws, t, k);
    PopCountToggle(ws[k], Pos(v));
  }

  /** Setting `n` distinct clear bits adds `n` to the count. */
  lemma {:induction false} CountSetBits(ws: seq<bv64>, vals: seq<int>)
    requires InRange(ws, vals) && Increasing(vals)
    requires forall i :: 0 <= i < |vals| ==> !BitIn(ws, vals[i])
    ensures Count(SetBits(ws, vals)) == Count(ws) + |vals|
    decreases |vals|
  {
    if |vals| > 0 {
      var n := |vals| - 1;
      CountSetBits(ws, vals[..n]);
      SetBitsSpec(ws, vals[..n], vals[n]);
      assert vals[n] !in vals[..n];
      CountSetBit(SetBits(ws, vals[..n]), vals[n]);
    }
  }

  /** Clearing `n` distinct set bits removes `n` from the count. */
  lemma {:induction false} CountClearBits(ws: seq<bv64>, vals: seq<int>)
    requires InRange(ws, vals) && Increasing(vals)
    requires forall i :: 0 <= i < |vals| ==> BitIn(ws, vals[i])
    ensures Count(ClearBits(ws, vals)) + |vals| == Count(ws)
    decreases |vals|
  {
    if |vals| > 0 {
      var n := |vals| - 1;
      CountClearBits(ws, vals[..n]);
      ClearBitsSpec(ws, vals[..n], vals[n]);
      assert vals[n] !in vals[..n];
      CountClearBit(ClearBits(ws, vals[..n]), vals[n]);
    }
  }

  /** Word-wise `&` of two bitmaps (`AndInternal`). */
  function MapAnd(a: seq<bv64>, b: seq<bv64>): (r: seq<bv64>)
    requires |a| == |b|
    ensures |r| == |a|
  {
    seq(|a|, i requires 0 <= i < |a| => And(a[i], b[i]))
  }

  /** Word-wise `|` of two bitmaps (`OrInternal`). */
  function MapOr(a: seq<bv64>, b: seq<bv64>): (r: seq<bv64>)
    requires |a| == |b|
    ensures |r| == |a|
  {
    seq(|a|, i requires 0 <= i < |a| => Or(a[i], b[i]))
  }

  /** Word-wise `^` of two bitmaps (`XorInternal`). */
  function MapXor(a: seq<bv64>, b: seq<bv64>): (r: seq<bv64>)
    requires |a| == |b|
    ensures |r| == |a|
  {
    seq(|a|, i requires 0 <= i < |a| => Xor(a[i], b[i]))
  }

  /** Word-wise `& ~` of two bitmaps (`AndNotInternal`). */
  function MapAndNot(a: seq<bv64>, b: seq<bv64>): (r: seq<bv64>)
    requires |a| == |b|
    ensures |r| == |a|
  {
    seq(|a|, i requires 0 <= i < |a| => AndNot(a[i], b[i]))
  }

  /** Word-wise `~` of a bitmap (`NotInternal`). */
  function MapNot(a: seq<bv64>): (r: seq<bv64>)
    ensures |r| == |a|
  {
    seq(|a|, i requires 0 <= i < |a| => Not(a[i]))
  }

  lemma MapAndAt(a: seq<bv64>, b: seq<bv64>, k: nat)
    requires |a| == |b| && k < |a|
    ensures MapAnd(a, b)[k] == And(a[k], b[k])
  {
  }

  lemma MapOrAt(a: seq<bv64>, b: seq<bv64>, k: nat)
    requires |a| == |b| && k < |a|
    ensures MapOr(a, b)[k] == Or(a[k], b[k])
  {
  }

  lemma MapXorAt(a: seq<bv64>, b: seq<bv64>, k: nat)
    requires |a| == |b| && k < |a|
    ensures MapXor(a, b)[k] == Xor(a[k], b[k])
  {
  }

  lemma MapAndNotAt(a: seq<bv64>, b: seq<bv64>, k: nat)
    requires |a| == |b| && k < |a|
    ensures MapAndNot(a, b)[k] == AndNot(a[k], b[k])
  {
  }

  lemma MapNotAt(a: seq<bv64>, k: nat)
    requires k < |a|
    ensures MapNot(a)[k] == Not(a[k])
  {
  }

  lemma AndWord(w: bv64, wa: bv64, wb: bv64, p: BitPos)
    requires w == And(wa, wb)
    ensures Bit(w, p) <==> Bit(wa, p) && Bit(wb, p)
  {
    AndBit(wa, wb, p);
  }

  lemma AndWords(a: seq<bv64>, b: seq<bv64>, k: nat, p: BitPos)
    requires |a| == |b| && k < |a|
    ensures Bit(MapAnd(a, b)[k], p) <==> Bit(a[k], p) && Bit(b[k], p)
  {
    MapAndAt(a, b, k);
    AndWord(MapAnd(a, b)[k], a[k], b[k], p);
  }


  lemma AndBitIn(a: seq<bv64>, b: seq<bv64>, x: nat)
    requires |a| == |b| && x < 64 * |a|
    ensures BitIn(MapAnd(a, b), x) <==> BitIn(a, x) && BitIn(b, x)
  {
    AndWords(a, b, x / 64, Pos(x));
  }


  lemma OrWord(w: bv64, wa: bv64, wb: bv64, p: BitPos)
    requires w == Or(wa, wb)
    ensures Bit(w, p) <==> Bit(wa, p) || Bit(wb, p)
  {
    OrBit(wa, wb, p);
  }

  lemma OrWords(a: seq<bv64>, b: seq<bv64>, k: nat, p: BitPos)
    requires |a| == |b| && k < |a|
    ensures Bit(MapOr(a, b)[k], p) <==> Bit(a[k], p) || Bit(b[k], p)
  {
    MapOrAt(a, b, k);
    OrWord(MapOr(a, b)[k], a[k], b[k], p);
  }


  lemma OrBitIn(a: seq<bv64>, b: seq<bv64>, x: nat)
    requires |a| == |b| && x < 64 * |a|
    ensures BitIn(MapOr(a, b), x) <==> BitIn(a, x) || BitIn(b, x)
  {
    OrWords(a, b, x / 64, Pos(x));
  }


  lemma XorWord(w: bv64, wa: bv64, wb: bv64, p: BitPos)
    requires w == Xor(wa, wb)
    ensures Bit(w, p) <==> Bit(wa, p) != Bit(wb, p)
  {
    XorBit(wa, wb, p);
  }

  lemma XorWords(a: seq<bv64>, b: seq<bv64>, k: nat, p: BitPos)
    requires |a| == |b| && k < |a|
    ensures Bit(MapXor(a, b)[k], p) <==> Bit(a[k], p) != Bit(b[k], p)
  {
    MapXorAt(a, b, k);
    XorWord(MapXor(a, b)[k], a[k], b[k], p);
  }


  lemma XorBitIn(a: seq<bv64>, b: seq<bv64>, x: nat)
    requires |a| == |b| && x < 64 * |a|
    ensures BitIn(MapXor(a, b), x) <==> BitIn(a, x) != BitIn(b, x)
  {
    XorWords(a, b, x / 64, Pos(x));
  }


  lemma AndNotWord(w: bv64, wa: bv64, wb: bv64, p: BitPos)
    requires w == AndNot(wa, wb)
    ensures Bit(w, p) <==> Bit(wa, p) && !Bit(wb, p)
  {
    AndNotBit(wa, wb, p);
  }

  lemma AndNotWords(a: seq<bv64>, b: seq<bv64>, k: nat, p: BitPos)
    requires |a| == |b| && k < |a|
    ensures Bit(MapAndNot(a, b)[k], p) <==> Bit(a[k], p) && !Bit(b[k], p)
  {
    MapAndNotAt(a, b, k);
    AndNotWord(MapAndNot(a, b)[k], a[k], b[k], p);
  }


  lemma AndNotBitIn(a: seq<bv64>, b: seq<bv64>, x: nat)
    requires |a| == |b| && x < 64 * |a|
    ensures BitIn(MapAndNot(a, b), x) <==> BitIn(a, x) && !BitIn(b, x)
  {
    AndNotWords(a, b, x / 64, Pos(x));
  }


  lemma NotWord(w: bv64, wa: bv64, p: BitPos)
    requires w == Not(wa)
    ensures Bit(w, p) <==> !Bit(wa, p)
  {
    NotBit(wa, p);
  }

  lemma NotWords(a: seq<bv64>, k: nat, p: BitPos)
    requires k < |a|
    ensures Bit(MapNot(a)[k], p) <==> !Bit(a[k], p)
  {
    MapNotAt(a, k);
    NotWord(MapNot(a)[k], a[k], p);
  }


  lemma NotBitIn(a: seq<bv64>, x: nat)
    requires x < 64 * |a|
    ensures BitIn(MapNot(a), x) <==> !BitIn(a, x)
  {
    NotWords(a, x / 64, Pos(x));
  }


  /** Members of the word-wise `&`: exactly the common members. */
  lemma EnumerateAnd(a: seq<bv64>, b: seq<bv64>)
    requires |a| == |b|
    ensures Enumerate(MapAnd(a, b)) == Intersect(Enumerate(a), Enumerate(b))
  {
    EnumerateSpec(a);
    EnumerateSpec(b);
    EnumerateSpec(MapAnd(a, b));
    IntersectSpec(Enumerate(a), Enumerate(b));
    forall x ensures x in Enumerate(MapAnd(a, b)) <==> x in Intersect(Enumerate(a), Enumerate(b)) {
      if 0 <= x < 64 * |a| {
        AndBitIn(a, b, x);
      }
    }
    IncreasingExt(Enumerate(MapAnd(a, b)), Intersect(Enumerate(a), Enumerate(b)));
  }

  /** Members of the word-wise `|`: exactly the members of either. */
  lemma EnumerateOr(a: seq<bv64>, b: seq<bv64>)
    requires |a| == |b|
    ensures Enumerate(MapOr(a, b)) == Union(Enumerate(a), Enumerate(b))
  {
    EnumerateSpec(a);
    EnumerateSpec(b);
    EnumerateSpec(MapOr(a, b));
    UnionSpec(Enumerate(a), Enumerate(b));
    forall x ensures x in Enumerate(MapOr(a, b)) <==> x in Union(Enumerate(a), Enumerate(b)) {
      if 0 <= x < 64 * |a| {
        OrBitIn(a, b, x);
      }
    }
    IncreasingExt(Enumerate(MapOr(a, b)), Union(Enumerate(a), Enumerate(b)));
  }

  /** Members of the word-wise `^`: exactly the members of one side only. */
  lemma EnumerateXor(a: seq<bv64>, b: seq<bv64>)
    requires |a| == |b|
    ensures Enumerate(MapXor(a, b)) == SymDiff(Enumerate(a), Enumerate(b))
  {
    EnumerateSpec(a);
    EnumerateSpec(b);
    EnumerateSpec(MapXor(a, b));
    SymDiffSpec(Enumerate(a), Enumerate(b));
    forall x ensures x in Enumerate(MapXor(a, b)) <==> x in SymDiff(Enumerate(a), Enumerate(b)) {
      if 0 <= x < 64 * |a| {
        XorBitIn(a, b, x);
      }
    }
    IncreasingExt(Enumerate(MapXor(a, b)), SymDiff(Enumerate(a), Enumerate(b)));
  }

  /** Members of the word-wise `& ~`: exactly the members of `a` missing from `b`. */
  lemma EnumerateAndNot(a: seq<bv64>, b: seq<bv64>)
    requires |a| == |b|
    ensures Enumerate(MapAndNot(a, b)) == Difference(Enumerate(a), Enumerate(b))
  {
    EnumerateSpec(a);
    EnumerateSpec(b);
    EnumerateSpec(MapAndNot(a, b));
    DifferenceSpec(Enumerate(a), Enumerate(b));
    forall x ensures x in Enumerate(MapAndNot(a, b)) <==> x in Difference(Enumerate(a), Enumerate(b)) {
      if 0 <= x < 64 * |a| {
        AndNotBitIn(a, b, x);
      }
    }
    IncreasingExt(Enumerate(MapAndNot(a, b)), Difference(Enumerate(a), Enumerate(b)));
  }

  lemma PopCountNotWord(w: bv64, wa: bv64)
    requires w == Not(wa)
    ensures PopCount(w) == 64 - PopCount(wa)
  {
    PopCountNot(wa);
  }

  /** Complementing every word complements the count. */
  lemma {:induction false} CountNot(a: seq<bv64>)
    ensures Count(MapNot(a)) == 64 * |a| - Count(a)
    decreases |a|
  {
    if |a| > 0 {
      var n := |a| - 1;
      CountNot(a[..n]);
      assert MapNot(a)[..n] == MapNot(a[..n]);
      MapNotAt(a, n);
      PopCountNotWord(MapNot(a)[n], a[n]);
    }
  }

  /** Two bitmaps of the same length with the same bits are the same words. */
  lemma BitmapExt(a: seq<bv64>, b: seq<bv64>)
    requires |a| == |b|
    requires forall x :: 0 <= x < 64 * |a| ==> (BitIn(a, x) <==> BitIn(b, x))
    ensures a == b
  {
    forall k | 0 <= k < |a| ensures a[k] == b[k] {
      forall p: BitPos ensures Bit(a[k], p) == Bit(b[k], p) {
        var x := 64 * k + p as int;
        PosBound(p);
        PosOffset(k, p);
        WordOf(a, x, k);
        assert BitIn(a, x) <==> BitIn(b, x);
      }
      WordExt(a[k], b[k]);
    }
  }

  /** Two bitmaps of the same length that enumerate the same members are the same words. */
  lemma EnumerateInjective(a: seq<bv64>, b: seq<bv64>)
    requires |a| == |b|
    requires Enumerate(a) == Enumerate(b)
    ensures a == b
  {
    EnumerateSpec(a);
    EnumerateSpec(b);
    forall x | 0 <= x < 64 * |a| ensures BitIn(a, x) <==> BitIn(b, x) {
      assert x in Enumerate(a) <==> x in Enumerate(b);
    }
    BitmapExt(a, b);
  }
}
