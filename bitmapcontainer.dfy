/**
  RoaringBitmap/BitmapContainer.cs without its operators: the constructors,
  the word loops the operators are built from, membership, `FillArray` and
  equality.  The operators, which also need the array container, are in
  module BitmapOperators.

  `1UL << v` for a `ushort v` shifts by `v & 63` (C# masks a 64-bit shift
  count to six bits), so it is the mask of bit `Pos(v)` of word `v >> 6`.
 */
module BitmapContainers {
  import opened Words
  import opened Sorted
  import opened BitmapWords
  import opened Util
  import opened Containers

  /** The value of `BitmapContainer.One`: every word `ulong.MaxValue`, cardinality `1 << 16`. */
  function Full(): Container
  {
    BitmapContainer(MaxCapacity, Ones(BitmapLength))
  }

  /** `One` holds every 16-bit value, and its cached cardinality is right. */
  lemma FullSpec(x: int)
    ensures Canonical(Full())
    ensures x in Elements(Full()) <==> 0 <= x < MaxCapacity
  {
    CountOnes(BitmapLength);
    OnesMembers(x);
  }

  /** The static constructor that builds `BitmapContainer.One`. */
  method One() returns (c: Container)
    ensures c == Full()
  {
    var data := new bv64[BitmapLength](_ => 0);
    for i := 0 to BitmapLength
      invariant forall j :: 0 <= j < i ==> data[j] == AllOnes
    {
      data[i] := AllOnes;
    }
    assert data[..] == Ones(BitmapLength);
    c := BitmapContainer(MaxCapacity, data[..]);
  }

  /**
    The container the constructor `BitmapContainer(cardinality, values,
    negated)` builds from the first `cardinality` values: their bits set in
    an empty bitmap, or cleared in a full one when `negated`, with the
    cardinality taken on trust (`MaxCapacity - cardinality` when negated).
   */
  function NewOf(cardinality: int, values: seq<u16>, negated: bool): Container
    requires 0 <= cardinality <= |values|
  {
    if negated then BitmapContainer(MaxCapacity - cardinality, ClearBits(Ones(BitmapLength), values[..cardinality]))
    else BitmapContainer(cardinality, SetBits(Zeros(BitmapLength), values[..cardinality]))
  }

  /**
    `BitmapContainer(int cardinality, ushort[] values, bool negated)`, which
    the three `Create` overloads call.  It allocates a zeroed bitmap, fills it
    with ones when negated, and then clears, or sets, the bit of each value.
   */
  method New(cardinality: int, values: seq<u16>, negated: bool) returns (c: Container)
    requires 0 <= cardinality <= |values|
    ensures c == NewOf(cardinality, values, negated)
  {
    var bitmap := new bv64[BitmapLength](_ => 0);
    if negated {
      for i := 0 to BitmapLength
        invariant forall j :: 0 <= j < i ==> bitmap[j] == AllOnes
      {
        bitmap[i] := AllOnes;
      }
      assert bitmap[..] == Ones(BitmapLength);
      for i := 0 to cardinality
        invariant bitmap[..] == ClearBits(Ones(BitmapLength), values[..i])
      {
        var v := values[i];
        assert values[..i + 1][..i] == values[..i];
        bitmap[v / 64] := WithoutBit(bitmap[v / 64], Pos(v as nat));
      }
      c := BitmapContainer(MaxCapacity - cardinality, bitmap[..]);
    } else {
      assert bitmap[..] == Zeros(BitmapLength);
      for i := 0 to cardinality
        invariant bitmap[..] == SetBits(Zeros(BitmapLength), values[..i])
      {
        var v := values[i];
        assert values[..i + 1][..i] == values[..i];
        bitmap[v / 64] := WithBit(bitmap[v / 64], Pos(v as nat));
      }
      c := BitmapContainer(cardinality, bitmap[..]);
    }
  }

  /**
    From sorted distinct values the constructor builds a valid container
    holding exactly those values; negated, it holds exactly the other 16-bit
    values, `MaxCapacity - cardinality` of them.
   */
  lemma NewSpec(cardinality: int, values: seq<u16>, negated: bool, x: int)
    requires 0 <= cardinality <= |values| && Increasing(values[..cardinality])
    ensures Valid(NewOf(cardinality, values, negated))
    ensures !negated ==> Elements(NewOf(cardinality, values, negated)) == values[..cardinality]
    ensures negated ==> (x in Elements(NewOf(cardinality, values, negated)) <==> 0 <= x < MaxCapacity && x !in values[..cardinality])
  {
    var vals: seq<int> := values[..cardinality];
    if negated {
      ComplementCount(vals);
      ComplementMembers(vals, x);
    } else {
      FromValues(vals);
    }
  }

  /** The bitmap `CreateXor` builds: the bits of both prefixes toggled into an empty bitmap. */
  function XorBits(first: seq<u16>, firstCardinality: int, second: seq<u16>, secondCardinality: int): seq<bv64>
    requires 0 <= firstCardinality <= |first| && 0 <= secondCardinality <= |second|
  {
    ToggleBits(ToggleBits(Zeros(BitmapLength), first[..firstCardinality]), second[..secondCardinality])
  }

  /** `BitmapContainer.CreateXor`: toggles the bit of every value of both prefixes, then counts. */
  method CreateXor(first: seq<u16>, firstCardinality: int, second: seq<u16>, secondCardinality: int) returns (c: Container)
    requires 0 <= firstCardinality <= |first| && 0 <= secondCardinality <= |second|
    ensures c == BitmapContainer(Count(XorBits(first, firstCardinality, second, secondCardinality)),
                                 XorBits(first, firstCardinality, second, secondCardinality))
  {
    var data := new bv64[BitmapLength](_ => 0);
    assert data[..] == Zeros(BitmapLength);
    for i := 0 to firstCardinality
      invariant data[..] == ToggleBits(Zeros(BitmapLength), first[..i])
    {
      var v := first[i];
      assert first[..i + 1][..i] == first[..i];
      data[v / 64] := FlipBit(data[v / 64], Pos(v as nat));
    }
    ghost var half := data[..];
    for i := 0 to secondCardinality
      invariant data[..] == ToggleBits(half, second[..i])
    {
      var v := second[i];
      assert second[..i + 1][..i] == second[..i];
      data[v / 64] := FlipBit(data[v / 64], Pos(v as nat));
    }
    var cardinality := BitCountArray(data);
    c := BitmapContainer(cardinality, data[..]);
  }

  /** On sorted prefixes, `CreateXor` builds a valid bitmap of their symmetric difference. */
  lemma CreateXorSpec(first: seq<u16>, firstCardinality: int, second: seq<u16>, secondCardinality: int)
    requires 0 <= firstCardinality <= |first| && 0 <= secondCardinality <= |second|
    requires Increasing(first[..firstCardinality]) && Increasing(second[..secondCardinality])
    ensures Enumerate(XorBits(first, firstCardinality, second, secondCardinality))
         == SymDiff(first[..firstCardinality], second[..secondCardinality])
  {
    var a: seq<int> := first[..firstCardinality];
    var b: seq<int> := second[..secondCardinality];
    EnumerateZeros();
    EnumerateToggleBits(Zeros(BitmapLength), a);
    assert SymDiff([], a) == a;
    EnumerateToggleBits(ToggleBits(Zeros(BitmapLength), a), b);
  }

  /** `BitmapContainer.Clone`: a fresh copy of the first 1024 words. */
  method Clone(data: seq<bv64>) returns (result: array<bv64>)
    requires |data| == BitmapLength
    ensures fresh(result) && result[..] == data
  {
    result := new bv64[BitmapLength](_ => 0);
    forall i | 0 <= i < BitmapLength {
      result[i] := data[i];
    }
  }

  /** `BitmapContainer.AndInternal`: `first[k] &= second[k]` for every word, then the new count. */
  method AndInternal(first: array<bv64>, second: seq<bv64>) returns (c: int)
    requires first.Length == BitmapLength && |second| == BitmapLength
    modifies first
    ensures first[..] == MapAnd(old(first[..]), second)
    ensures c == Count(first[..])
  {
    ghost var before := first[..];
    for k := 0 to BitmapLength
      invariant forall j :: 0 <= j < k ==> first[j] == And(before[j], second[j])
      invariant forall j :: k <= j < BitmapLength ==> first[j] == before[j]
    {
      first[k] := And(first[k], second[k]);
    }
    assert first[..] == MapAnd(before, second);
    c := BitCountArray(first);
  }

  /** `BitmapContainer.OrInternal`: `first[k] |= second[k]` for every word, then the new count. */
  method OrInternal(first: array<bv64>, second: seq<bv64>) returns (c: int)
    requires first.Length == BitmapLength && |second| == BitmapLength
    modifies first
    ensures first[..] == MapOr(old(first[..]), second)
    ensures c == Count(first[..])
  {
    ghost var before := first[..];
    for k := 0 to BitmapLength
      invariant forall j :: 0 <= j < k ==> first[j] == Or(before[j], second[j])
      invariant forall j :: k <= j < BitmapLength ==> first[j] == before[j]
    {
      first[k] := Or(first[k], second[k]);
    }
    assert first[..] == MapOr(before, second);
    c := BitCountArray(first);
  }

  /** `BitmapContainer.XorInternal`: `first[k] ^= second[k]` for every word, then the new count. */
  method XorInternal(first: array<bv64>, second: seq<bv64>) returns (c: int)
    requires first.Length == BitmapLength && |second| == BitmapLength
    modifies first
    ensures first[..] == MapXor(old(first[..]), second)
    ensures c == Count(first[..])
  {
    ghost var before := first[..];
    for k := 0 to BitmapLength
      invariant forall j :: 0 <= j < k ==> first[j] == Xor(before[j], second[j])
      invariant forall j :: k <= j < BitmapLength ==> first[j] == before[j]
    {
      first[k] := Xor(first[k], second[k]);
    }
    assert first[..] == MapXor(before, second);
    c := BitCountArray(first);
  }

  /**
    `BitmapContainer.AndNotInternal`: `first[k] &= ~second[k]`, looping over
    `first.Length` words rather than `BitmapLength`, then the new count.
   */
  method AndNotInternal(first: array<bv64>, second: seq<bv64>) returns (c: int)
    requires first.Length == BitmapLength && |second| == BitmapLength
    modifies first
    ensures first[..] == MapAndNot(old(first[..]), second)
    ensures c == Count(first[..])
  {
    ghost var before := first[..];
    for k := 0 to first.Length
      invariant forall j :: 0 <= j < k ==> first[j] == AndNot(before[j], second[j])
      invariant forall j :: k <= j < BitmapLength ==> first[j] == before[j]
    {
      first[k] := AndNot(first[k], second[k]);
    }
    assert first[..] == MapAndNot(before, second);
    c := BitCountArray(first);
  }

  /** `BitmapContainer.NotInternal`: `data[k] = ~data[k]` for every word, then the new count. */
  method NotInternal(data: array<bv64>) returns (c: int)
    requires data.Length == BitmapLength
    modifies data
    ensures data[..] == MapNot(old(data[..]))
    ensures c == Count(data[..])
  {
    ghost var before := data[..];
    for k := 0 to BitmapLength
      invariant forall j :: 0 <= j < k ==> data[j] == Not(before[j])
      invariant forall j :: k <= j < BitmapLength ==> data[j] == before[j]
    {
      data[k] := Not(data[k]);
    }
    assert data[..] == MapNot(before);
    c := BitCountArray(data);
  }

  /** `BitmapContainer.Contains`: `(bitmap[x >> 6] & (1UL << x)) != 0` holds exactly for the enumerated members. */
  function Contains(bitmap: seq<bv64>, x: u16): (r: bool)
    requires |bitmap| == BitmapLength
    ensures r <==> x as int in Enumerate(bitmap)
  {
    EnumerateSpec(bitmap);
    MaskTest(bitmap[x / 64], Pos(x as nat));
    And(bitmap[x / 64], Mask(Pos(x as nat))) != 0
  }

  /** A prefix of a bitmap counts no more than the whole. */
  lemma {:induction false} CountPrefix(ws: seq<bv64>, k: nat)
    requires k <= |ws|
    ensures Count(ws[..k]) <= Count(ws)
    decreases |ws| - k
  {
    if k < |ws| {
      CountNext(ws, k);
      CountPrefix(ws, k + 1);
    } else {
      assert ws[..k] == ws;
    }
  }

  /** The zero word lists no member. */
  lemma WordElemsZero(k: nat)
    ensures WordElems(0, k, 0) == []
  {
    WordElemsCount(0, k, 0);
    PopCountZero(0);
  }

  /**
    One pass of the inner loop of `FillArray` for word `k`: `t = w & (~w + 1)`
    isolates the lowest set bit of `w`, `shiftedK + BitCount(t - 1)` is its
    value, written at `r`, and `w ^ t` drops it.
   */
  method FillStep(w: bv64, k: int, shiftedK: int, data: array<u16>, r: int, ghost whole: seq<int>) returns (w': bv64, r': int)
    requires 0 <= k < BitmapLength && shiftedK == 64 * k && w != 0
    requires 0 <= r && r + PopCount(w) <= data.Length
    requires data[..r] + WordElems(w, k, 0) == whole
    modifies data
    ensures r' == r + 1 && r' + PopCount(w') == r + PopCount(w)
    ensures data[..r'] + WordElems(w', k, 0) == whole
    ensures forall i :: r' <= i < data.Length ==> data[i] == old(data[i])
  {
    var t := LowestBit(w);
    StepFacts(w, k, shiftedK);
    WordElemsCount(w, k, 0);
    var v := (shiftedK + BitCount(Below(t))) as u16;
    r' := Emit(data, r, v, WordElems(Xor(w, t), k, 0), whole);
    w' := Xor(w, t);
  }

  /** What one pass of the inner loop of `FillArray` relies on: the value written is the first member of the word. */
  lemma StepFacts(w: bv64, k: int, shiftedK: int)
    requires 0 <= k < BitmapLength && shiftedK == 64 * k && w != 0
    ensures 0 <= shiftedK + BitCount(Below(LowestBit(w))) < MaxCapacity
    ensures WordElems(w, k, 0) == [shiftedK + BitCount(Below(LowestBit(w)))] + WordElems(Xor(w, LowestBit(w)), k, 0)
    ensures PopCount(Xor(w, LowestBit(w))) + 1 == PopCount(w) && PopCount(w) > 0
  {
    var j := WordElemsLowest(w, k);
    PopCountZero(w);
  }

  /**
    The inner loop of `FillArray` for word `k`: the members of `bitset` are
    appended at `pos`, low bit first; nothing after them changes.
   */
  method FillWord(bitset: bv64, k: int, shiftedK: int, data: array<u16>, pos: int) returns (r: int)
    requires 0 <= k < BitmapLength && shiftedK == 64 * k
    requires 0 <= pos && pos + PopCount(bitset) <= data.Length
    modifies data
    ensures r == pos + PopCount(bitset)
    ensures data[..r] == old(data[..pos]) + WordElems(bitset, k, 0)
    ensures forall i :: r <= i < data.Length ==> data[i] == old(data[i])
  {
    ghost var whole := data[..pos] + WordElems(bitset, k, 0);
    var w := bitset;
    r := pos;
    while w != 0
      invariant pos <= r && r + PopCount(w) == pos + PopCount(bitset)
      invariant data[..r] + WordElems(w, k, 0) == whole
      invariant forall i :: r <= i < data.Length ==> data[i] == old(data[i])
      decreases PopCount(w)
    {
      w, r := FillStep(w, k, shiftedK, data, r, whole);
    }
    PopCountZero(w);
    WordElemsZero(k);
  }

  /**
    `BitmapContainer.FillArray`: writes the set bits, word by word and low
    bit first, to the front of `data`, and returns the cached cardinality
    rather than the number written.
   */
  method FillArray(bc: Container, data: array<u16>) returns (r: int)
    requires bc.BitmapContainer? && |bc.bitmap| == BitmapLength
    requires Count(bc.bitmap) <= data.Length
    modifies data
    ensures r == bc.cardinality
    ensures data[..Count(bc.bitmap)] == Enumerate(bc.bitmap)
    ensures forall i :: Count(bc.bitmap) <= i < data.Length ==> data[i] == old(data[i])
  {
    var bitmap := bc.bitmap;
    var pos := 0;
    for k := 0 to BitmapLength
      invariant pos == Count(bitmap[..k]) <= data.Length
      invariant data[..pos] == Enumerate(bitmap[..k])
      invariant forall i :: pos <= i < data.Length ==> data[i] == old(data[i])
    {
      EnumerateNext(bitmap, k);
      CountNext(bitmap, k);
      CountPrefix(bitmap, k + 1);
      pos := FillWord(bitmap[k], k, k * 64, data, pos);
    }
    assert bitmap[..BitmapLength] == bitmap;
    r := bc.cardinality;
  }

  /** `BitmapContainer.Equals(BitmapContainer)`: equal cardinalities, then all 1024 words compared. */
  method Equals(x: Container, other: Container) returns (r: bool)
    requires x.BitmapContainer? && other.BitmapContainer?
    requires |x.bitmap| == BitmapLength && |other.bitmap| == BitmapLength
    ensures r <==> x.cardinality == other.cardinality && x.bitmap == other.bitmap
  {
    if x.cardinality != other.cardinality {
      return false;
    }
    for i := 0 to BitmapLength
      invariant x.bitmap[..i] == other.bitmap[..i]
    {
      if x.bitmap[i] != other.bitmap[i] {
        return false;
      }
      assert x.bitmap[..i + 1] == x.bitmap[..i] + [x.bitmap[i]];
      assert other.bitmap[..i + 1] == other.bitmap[..i] + [other.bitmap[i]];
    }
    assert x.bitmap == x.bitmap[..BitmapLength] && other.bitmap == other.bitmap[..BitmapLength];
    return true;
  }

  /** `BitmapContainer.EqualsInternal`: false for an array container, whatever its members. */
  method EqualsInternal(x: Container, other: Container) returns (r: bool)
    requires x.BitmapContainer? && |x.bitmap| == BitmapLength
    requires other.BitmapContainer? ==> |other.bitmap| == BitmapLength
    ensures r <==> other.BitmapContainer? && x.cardinality == other.cardinality && x.bitmap == other.bitmap
  {
    if !other.BitmapContainer? {
      return false;
    }
    r := Equals(x, other);
  }

  /** For valid bitmap containers, `Equals` holds exactly when they have the same members. */
  lemma EqualsMembers(x: Container, other: Container)
    requires Valid(x) && Valid(other) && x.BitmapContainer? && other.BitmapContainer?
    ensures (x.cardinality == other.cardinality && x.bitmap == other.bitmap) <==> Elements(x) == Elements(other)
  {
    if Elements(x) == Elements(other) {
      EnumerateInjective(x.bitmap, other.bitmap);
    }
  }
}
