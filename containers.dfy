/**
  The two kinds of 16-bit container of the Roaring bitmap
  (RoaringBitmap/BitmapContainer.cs, RoaringBitmap/Internal/ArrayContainer.cs,
  RoaringBitmap/ArrayContainer.cs) as values.

  Both classes are immutable once constructed, so a container is modelled as
  the value of its two fields: an array container is its cardinality and its
  whole `ushort[]` buffer, slack beyond the cardinality included; a bitmap
  container is its cached cardinality and its `ulong[]` words.  The methods
  that build containers work on freshly allocated arrays and hand back these
  values.
 */
module Containers {
  import opened Words
  import opened Sorted
  import opened BitmapWords

  /** `Container.MaxSize`: containers of at most this many members are meant to be array containers. */
  const MaxSize: int := 4096

  /** `Container.MaxCapacity`: the number of 16-bit values, `1 << 16`. */
  const MaxCapacity: int := 0x1_0000

  /** `BitmapContainer.BitmapLength`: 1024 words of 64 bits. */
  const BitmapLength: int := 1024

  datatype Container =
    | ArrayContainer(cardinality: int, content: seq<u16>)
    | BitmapContainer(cardinality: int, bitmap: seq<bv64>)

  /**
    What every container built by the library satisfies: the first
    `cardinality` entries of an array container strictly increase, and a
    bitmap container has 1024 words and caches their population count.
   */
  predicate Valid(c: Container)
  {
    match c
    case ArrayContainer(card, content) => 0 <= card <= |content| && Increasing(content[..card])
    case BitmapContainer(card, bitmap) => |bitmap| == BitmapLength && card == Count(bitmap)
  }

  /** The threshold the library aims for: array containers hold at most `MaxSize` members, bitmaps more. */
  predicate Canonical(c: Container)
  {
    Valid(c) && (c.ArrayContainer? <==> c.cardinality <= MaxSize)
  }

  /** All entries of `s` are 16-bit values. */
  predicate Short(s: seq<int>)
  {
    forall i :: 0 <= i < |s| ==> 0 <= s[i] < MaxCapacity
  }

  /**
    The members of a container, in the order its enumerator yields them: the
    used prefix of the buffer, or the set bits from low to high.
   */
  function Elements(c: Container): (s: seq<int>)
    requires Valid(c)
    ensures Increasing(s) && Short(s) && |s| == c.cardinality
  {
    match c
    case ArrayContainer(card, content) => content[..card]
    case BitmapContainer(_, bitmap) => EnumerateShort(bitmap); Enumerate(bitmap)
  }

  /** A bitmap of 1024 words enumerates 16-bit values only. */
  lemma EnumerateShort(ws: seq<bv64>)
    requires |ws| == BitmapLength
    ensures Increasing(Enumerate(ws)) && Short(Enumerate(ws)) && |Enumerate(ws)| == Count(ws)
  {
    EnumerateSpec(ws);
    var e := Enumerate(ws);
    forall i | 0 <= i < |e|
      ensures 0 <= e[i] < MaxCapacity
    {
      assert e[i] in e;
    }
  }

  /** A zero-filled buffer of `n` entries whose front holds `s`: what `new ushort[n]` looks like after a kernel wrote `s`. */
  function Pad(s: seq<int>, n: int): (r: seq<u16>)
    requires |s| <= n && Short(s)
    ensures |r| == n && r[..|s|] == s
    ensures forall i :: |s| <= i < n ==> r[i] == 0
  {
    seq(n, i requires 0 <= i < n => if i < |s| then s[i] as u16 else 0)
  }

  /** A buffer that holds `s` at its front and zeros after it is `Pad(s, n)`. */
  lemma PadExt(data: seq<u16>, s: seq<int>, n: int)
    requires |s| <= n == |data| && Short(s)
    requires data[..|s|] == s
    requires forall i :: |s| <= i < n ==> data[i] == 0
    ensures data == Pad(s, n)
  {
    forall i | 0 <= i < |s|
      ensures data[i] == s[i]
    {
      assert data[..|s|][i] == data[i];
    }
  }

  /** A sequence drawn from the members of two 16-bit sequences holds 16-bit values only. */
  lemma ShortFrom(s: seq<int>, a: seq<int>, b: seq<int>)
    requires Short(a) && Short(b)
    requires forall v :: v in s ==> v in a || v in b
    ensures Short(s)
  {
    forall i | 0 <= i < |s|
      ensures 0 <= s[i] < MaxCapacity
    {
      assert s[i] in s;
    }
  }

  /**
    The tail `bc.m_Cardinality <= MaxSize ? ArrayContainer.Create(bc) : bc`
    of the bitmap operators, for the words `ws` and the cardinality counted
    from them.
   */
  function Downgrade(ws: seq<bv64>): (r: Container)
    requires |ws| == BitmapLength
    ensures Canonical(r) && Elements(r) == Enumerate(ws) && r.cardinality == Count(ws)
  {
    EnumerateShort(ws);
    if Count(ws) <= MaxSize then ArrayContainer(Count(ws), Enumerate(ws))
    else BitmapContainer(Count(ws), ws)
  }

  /** Every bit of the full bitmap is set: it enumerates all 65536 values. */
  lemma OnesMembers(x: int)
    ensures x in Enumerate(Ones(BitmapLength)) <==> 0 <= x < MaxCapacity
  {
    var ones := Ones(BitmapLength);
    EnumerateSpec(ones);
    if 0 <= x < MaxCapacity {
      assert ones[x / 64] == AllOnes;
      AllOnesBit(Pos(x));
      assert BitIn(ones, x);
    }
  }

  /** Setting the bits of sorted values in a bitmap adds them to its enumeration. */
  lemma EnumerateSetBits(ws: seq<bv64>, vals: seq<int>)
    requires InRange(ws, vals) && Increasing(vals)
    ensures Enumerate(SetBits(ws, vals)) == Union(Enumerate(ws), vals)
    ensures Count(SetBits(ws, vals)) == |Union(Enumerate(ws), vals)|
  {
    var r := SetBits(ws, vals);
    EnumerateSpec(ws);
    EnumerateSpec(r);
    UnionSpec(Enumerate(ws), vals);
    forall x
      ensures x in Enumerate(r) <==> x in Union(Enumerate(ws), vals)
    {
      if 0 <= x < 64 * |ws| {
        SetBitsSpec(ws, vals, x);
      }
    }
    IncreasingExt(Enumerate(r), Union(Enumerate(ws), vals));
  }

  /** Clearing the bits of sorted values in a bitmap removes them from its enumeration. */
  lemma EnumerateClearBits(ws: seq<bv64>, vals: seq<int>)
    requires InRange(ws, vals) && Increasing(vals)
    ensures Enumerate(ClearBits(ws, vals)) == Difference(Enumerate(ws), vals)
    ensures Count(ClearBits(ws, vals)) == |Difference(Enumerate(ws), vals)|
  {
    var r := ClearBits(ws, vals);
    EnumerateSpec(ws);
    EnumerateSpec(r);
    DifferenceSpec(Enumerate(ws), vals);
    forall x
      ensures x in Enumerate(r) <==> x in Difference(Enumerate(ws), vals)
    {
      if 0 <= x < 64 * |ws| {
        ClearBitsSpec(ws, vals, x);
      }
    }
    IncreasingExt(Enumerate(r), Difference(Enumerate(ws), vals));
  }

  /** Toggling the bits of sorted values in a bitmap gives the symmetric difference of the enumerations. */
  lemma EnumerateToggleBits(ws: seq<bv64>, vals: seq<int>)
    requires InRange(ws, vals) && Increasing(vals)
    ensures Enumerate(ToggleBits(ws, vals)) == SymDiff(Enumerate(ws), vals)
    ensures Count(ToggleBits(ws, vals)) == |SymDiff(Enumerate(ws), vals)|
  {
    var r := ToggleBits(ws, vals);
    EnumerateSpec(ws);
    EnumerateSpec(r);
    SymDiffSpec(Enumerate(ws), vals);
    forall x
      ensures x in Enumerate(r) <==> x in SymDiff(Enumerate(ws), vals)
    {
      if 0 <= x < 64 * |ws| {
        ToggleBitsSpec(ws, vals, x);
      }
    }
    IncreasingExt(Enumerate(r), SymDiff(Enumerate(ws), vals));
  }

  /** The empty bitmap enumerates nothing. */
  lemma EnumerateZeros()
    ensures Enumerate(Zeros(BitmapLength)) == []
  {
    EnumerateSpec(Zeros(BitmapLength));
    CountZeros(BitmapLength);
  }

  /** Setting the bits of sorted 16-bit values in an empty bitmap enumerates exactly those values. */
  lemma FromValues(vals: seq<int>)
    requires Short(vals) && Increasing(vals)
    ensures Enumerate(SetBits(Zeros(BitmapLength), vals)) == vals
    ensures Count(SetBits(Zeros(BitmapLength), vals)) == |vals|
  {
    EnumerateZeros();
    EnumerateSetBits(Zeros(BitmapLength), vals);
  }

  /** Clearing the bits of sorted 16-bit values in a full bitmap leaves exactly the other values. */
  lemma ComplementMembers(vals: seq<int>, x: int)
    requires Short(vals) && Increasing(vals)
    ensures x in Enumerate(ClearBits(Ones(BitmapLength), vals)) <==> 0 <= x < MaxCapacity && x !in vals
  {
    var ones := Ones(BitmapLength);
    EnumerateClearBits(ones, vals);
    EnumerateSpec(ones);
    DifferenceSpec(Enumerate(ones), vals);
    OnesMembers(x);
  }

  /** ... and there are `65536 - |vals|` of them. */
  lemma ComplementCount(vals: seq<int>)
    requires Short(vals) && Increasing(vals)
    ensures Count(ClearBits(Ones(BitmapLength), vals)) == MaxCapacity - |vals|
  {
    var ones := Ones(BitmapLength);
    forall i | 0 <= i < |vals|
      ensures BitIn(ones, vals[i])
    {
      assert ones[vals[i] / 64] == AllOnes;
      AllOnesBit(Pos(vals[i]));
    }
    CountClearBits(ones, vals);
    CountOnes(BitmapLength);
  }
}
