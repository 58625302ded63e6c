/**
  The operators of RoaringBitmap/BitmapContainer.cs.  Each one clones the
  left operand's words (so neither operand changes), updates the copy word by
  word or with the right operand's values, recounts, and hands back an array
  container when the result has at most `MaxSize` members.

  As for the array container, each operator is a method over the cloned
  array; the function named `...Of` is the container it builds and the lemma
  named `...Spec` says what that container holds.
 */
module BitmapOperators {
  import opened Words
  import opened Sorted
  import opened BitmapWords
  import opened Util
  import opened Containers
  import BitmapContainers
  import ArrayContainers

  /**
    The common tail `bc.m_Cardinality <= MaxSize ? ArrayContainer.Create(bc) : bc`
    for a freshly counted bitmap.
   */
  method Shrink(bc: Container) returns (c: Container)
    requires bc.BitmapContainer? && Valid(bc)
    ensures c == Downgrade(bc.bitmap)
  {
    if bc.cardinality <= MaxSize {
      c := ArrayContainers.CreateFromBitmap(bc);
      ArrayContainers.CreateFromBitmapDowngrade(bc, c);
    } else {
      c := bc;
    }
  }

  /** The 16-bit members of an array container address bits of a 1024-word bitmap. */
  lemma ArrayInRange(ws: seq<bv64>, y: Container)
    requires |ws| == BitmapLength && y.ArrayContainer? && Valid(y)
    ensures InRange(ws, y.content[..y.cardinality])
  {
    assert y.content[..y.cardinality] == Elements(y);
  }

  // ---------------------------------------------------------------------
  // Bitmap & Bitmap, Bitmap & Array

  /** `x & y` for two bitmap containers. */
  function AndOf(x: Container, y: Container): Container
    requires x.BitmapContainer? && y.BitmapContainer? && Valid(x) && Valid(y)
  {
    Downgrade(MapAnd(x.bitmap, y.bitmap))
  }

  method OpAnd(x: Container, y: Container) returns (c: Container)
    requires x.BitmapContainer? && y.BitmapContainer? && Valid(x) && Valid(y)
    ensures c == AndOf(x, y)
  {
    var data := BitmapContainers.Clone(x.bitmap);
    var cardinality := BitmapContainers.AndInternal(data, y.bitmap);
    c := Shrink(BitmapContainer(cardinality, data[..]));
  }

  /** The word-wise `&` holds exactly the common members, in the representation its size calls for. */
  lemma AndSpec(x: Container, y: Container)
    requires x.BitmapContainer? && y.BitmapContainer? && Valid(x) && Valid(y)
    ensures Canonical(AndOf(x, y))
    ensures Elements(AndOf(x, y)) == Intersect(Elements(x), Elements(y))
  {
    EnumerateAnd(x.bitmap, y.bitmap);
  }

  /** `x & y` for a bitmap container `x` and an array container `y`: `y & x`. */
  function AndArrayOf(x: Container, y: Container): Container
    requires x.BitmapContainer? && y.ArrayContainer? && Valid(x) && Valid(y)
  {
    ArrayContainers.AndBitmapOf(y, x)
  }

  method OpAndArray(x: Container, y: Container) returns (c: Container)
    requires x.BitmapContainer? && y.ArrayContainer? && Valid(x) && Valid(y)
    ensures c == AndArrayOf(x, y)
  {
    c := ArrayContainers.OpAndBitmap(y, x);
  }

  /** With the operands swapped the intersection is the same. */
  lemma AndArraySpec(x: Container, y: Container)
    requires x.BitmapContainer? && y.ArrayContainer? && Valid(x) && Valid(y)
    ensures AndArrayOf(x, y).ArrayContainer? && Valid(AndArrayOf(x, y))
    ensures Elements(AndArrayOf(x, y)) == Intersect(Elements(x), Elements(y))
    ensures Canonical(y) ==> Canonical(AndArrayOf(x, y))
  {
    ArrayContainers.AndBitmapSpec(y, x);
    IntersectComm(Elements(x), Elements(y));
  }

  // ---------------------------------------------------------------------
  // Bitmap | Bitmap, Bitmap | Array

  /** `x | y` for two bitmap containers: always a bitmap container. */
  function OrOf(x: Container, y: Container): Container
    requires x.BitmapContainer? && y.BitmapContainer? && Valid(x) && Valid(y)
  {
    BitmapContainer(Count(MapOr(x.bitmap, y.bitmap)), MapOr(x.bitmap, y.bitmap))
  }

  method OpOr(x: Container, y: Container) returns (c: Container)
    requires x.BitmapContainer? && y.BitmapContainer? && Valid(x) && Valid(y)
    ensures c == OrOf(x, y)
  {
    var data := BitmapContainers.Clone(x.bitmap);
    var cardinality := BitmapContainers.OrInternal(data, y.bitmap);
    c := BitmapContainer(cardinality, data[..]);
  }

  /** The word-wise `|` holds the members of either operand; from a canonical `x` it has more than `MaxSize`. */
  lemma OrSpec(x: Container, y: Container)
    requires x.BitmapContainer? && y.BitmapContainer? && Valid(x) && Valid(y)
    ensures OrOf(x, y).BitmapContainer? && Valid(OrOf(x, y))
    ensures Elements(OrOf(x, y)) == Union(Elements(x), Elements(y))
    ensures Canonical(x) ==> Canonical(OrOf(x, y))
  {
    EnumerateOr(x.bitmap, y.bitmap);
    EnumerateSpec(MapOr(x.bitmap, y.bitmap));
    UnionLonger(Elements(x), Elements(y));
  }

  /** `x | y` for a bitmap container `x` and an array container `y`: `x`'s cardinality plus what `OrArray` adds. */
  function OrArrayOf(x: Container, y: Container): Container
    requires x.BitmapContainer? && y.ArrayContainer? && Valid(x) && Valid(y)
  {
    ArrayInRange(x.bitmap, y);
    var words := SetBits(x.bitmap, y.content[..y.cardinality]);
    BitmapContainer(x.cardinality + (Count(words) - Count(x.bitmap)), words)
  }

  method OpOrArray(x: Container, y: Container) returns (c: Container)
    requires x.BitmapContainer? && y.ArrayContainer? && Valid(x) && Valid(y)
    ensures c == OrArrayOf(x, y)
  {
    var data := BitmapContainers.Clone(x.bitmap);
    ArrayInRange(data[..], y);
    var extra := ArrayContainers.OrArray(y, data);
    c := BitmapContainer(x.cardinality + extra, data[..]);
  }

  /** Setting `y`'s bits in `x`'s words gives a valid bitmap of the union. */
  lemma OrArraySpec(x: Container, y: Container)
    requires x.BitmapContainer? && y.ArrayContainer? && Valid(x) && Valid(y)
    ensures OrArrayOf(x, y).BitmapContainer? && Valid(OrArrayOf(x, y))
    ensures Elements(OrArrayOf(x, y)) == Union(Elements(x), Elements(y))
    ensures Canonical(x) ==> Canonical(OrArrayOf(x, y))
  {
    ArrayInRange(x.bitmap, y);
    assert y.content[..y.cardinality] == Elements(y);
    EnumerateSetBits(x.bitmap, Elements(y));
    EnumerateSpec(x.bitmap);
    UnionLonger(Elements(x), Elements(y));
  }

  // ---------------------------------------------------------------------
  // ~Bitmap

  /** `~x` for a bitmap container. */
  function NotOf(x: Container): Container
    requires x.BitmapContainer? && Valid(x)
  {
    Downgrade(MapNot(x.bitmap))
  }

  method OpNot(x: Container) returns (c: Container)
    requires x.BitmapContainer? && Valid(x)
    ensures c == NotOf(x)
  {
    var data := BitmapContainers.Clone(x.bitmap);
    var cardinality := BitmapContainers.NotInternal(data);
    c := Shrink(BitmapContainer(cardinality, data[..]));
  }

  /** The word-wise complement holds exactly the 16-bit values `x` lacks, `65536 - cardinality` of them. */
  lemma NotSpec(x: Container, v: int)
    requires x.BitmapContainer? && Valid(x)
    ensures Canonical(NotOf(x))
    ensures NotOf(x).cardinality == MaxCapacity - x.cardinality
    ensures v in Elements(NotOf(x)) <==> 0 <= v < MaxCapacity && v !in Elements(x)
  {
    CountNot(x.bitmap);
    EnumerateSpec(x.bitmap);
    EnumerateSpec(MapNot(x.bitmap));
    if 0 <= v < MaxCapacity {
      NotBitIn(x.bitmap, v);
    }
  }

  // ---------------------------------------------------------------------
  // Bitmap ^ Bitmap, Bitmap ^ Array

  /** `x ^ y` for two bitmap containers. */
  function XorOf(x: Container, y: Container): Container
    requires x.BitmapContainer? && y.BitmapContainer? && Valid(x) && Valid(y)
  {
    Downgrade(MapXor(x.bitmap, y.bitmap))
  }

  method OpXor(x: Container, y: Container) returns (c: Container)
    requires x.BitmapContainer? && y.BitmapContainer? && Valid(x) && Valid(y)
    ensures c == XorOf(x, y)
  {
    var data := BitmapContainers.Clone(x.bitmap);
    var cardinality := BitmapContainers.XorInternal(data, y.bitmap);
    c := Shrink(BitmapContainer(cardinality, data[..]));
  }

  /** The word-wise `^` holds exactly the members of one operand only. */
  lemma XorSpec(x: Container, y: Container)
    requires x.BitmapContainer? && y.BitmapContainer? && Valid(x) && Valid(y)
    ensures Canonical(XorOf(x, y))
    ensures Elements(XorOf(x, y)) == SymDiff(Elements(x), Elements(y))
  {
    EnumerateXor(x.bitmap, y.bitmap);
  }

  /** `x ^ y` for a bitmap container `x` and an array container `y`: `y`'s bits toggled in a copy of `x`. */
  function XorArrayOf(x: Container, y: Container): Container
    requires x.BitmapContainer? && y.ArrayContainer? && Valid(x) && Valid(y)
  {
    ArrayInRange(x.bitmap, y);
    Downgrade(ToggleBits(x.bitmap, y.content[..y.cardinality]))
  }

  method OpXorArray(x: Container, y: Container) returns (c: Container)
    requires x.BitmapContainer? && y.ArrayContainer? && Valid(x) && Valid(y)
    ensures c == XorArrayOf(x, y)
  {
    var data := BitmapContainers.Clone(x.bitmap);
    ArrayInRange(data[..], y);
    var extra := ArrayContainers.XorArray(y, data);
    c := Shrink(BitmapContainer(x.cardinality + extra, data[..]));
  }

  /** Toggling `y`'s bits in `x`'s words gives exactly the members of one operand only. */
  lemma XorArraySpec(x: Container, y: Container)
    requires x.BitmapContainer? && y.ArrayContainer? && Valid(x) && Valid(y)
    ensures Canonical(XorArrayOf(x, y))
    ensures Elements(XorArrayOf(x, y)) == SymDiff(Elements(x), Elements(y))
  {
    ArrayInRange(x.bitmap, y);
    assert y.content[..y.cardinality] == Elements(y);
    EnumerateToggleBits(x.bitmap, Elements(y));
  }

  // ---------------------------------------------------------------------
  // AndNot(Bitmap, Bitmap), AndNot(Bitmap, Array)

  /** `AndNot(x, y)` for two bitmap containers. */
  function AndNotOf(x: Container, y: Container): Container
    requires x.BitmapContainer? && y.BitmapContainer? && Valid(x) && Valid(y)
  {
    Downgrade(MapAndNot(x.bitmap, y.bitmap))
  }

  method OpAndNot(x: Container, y: Container) returns (c: Container)
    requires x.BitmapContainer? && y.BitmapContainer? && Valid(x) && Valid(y)
    ensures c == AndNotOf(x, y)
  {
    var data := BitmapContainers.Clone(x.bitmap);
    var cardinality := BitmapContainers.AndNotInternal(data, y.bitmap);
    c := Shrink(BitmapContainer(cardinality, data[..]));
  }

  /** The word-wise `& ~` holds exactly the members of `x` that `y` lacks. */
  lemma AndNotSpec(x: Container, y: Container)
    requires x.BitmapContainer? && y.BitmapContainer? && Valid(x) && Valid(y)
    ensures Canonical(AndNotOf(x, y))
    ensures Elements(AndNotOf(x, y)) == Difference(Elements(x), Elements(y))
  {
    EnumerateAndNot(x.bitmap, y.bitmap);
  }

  /** `AndNot(x, y)` for a bitmap container `x` and an array container `y`: `y`'s bits cleared in a copy of `x`. */
  function AndNotArrayOf(x: Container, y: Container): Container
    requires x.BitmapContainer? && y.ArrayContainer? && Valid(x) && Valid(y)
  {
    ArrayInRange(x.bitmap, y);
    Downgrade(ClearBits(x.bitmap, y.content[..y.cardinality]))
  }

  method OpAndNotArray(x: Container, y: Container) returns (c: Container)
    requires x.BitmapContainer? && y.ArrayContainer? && Valid(x) && Valid(y)
    ensures c == AndNotArrayOf(x, y)
  {
    var data := BitmapContainers.Clone(x.bitmap);
    ArrayInRange(data[..], y);
    var extra := ArrayContainers.AndNotArray(y, data);
    c := Shrink(BitmapContainer(x.cardinality + extra, data[..]));
  }

  /** Clearing `y`'s bits in `x`'s words gives exactly the members of `x` that `y` lacks. */
  lemma AndNotArraySpec(x: Container, y: Container)
    requires x.BitmapContainer? && y.ArrayContainer? && Valid(x) && Valid(y)
    ensures Canonical(AndNotArrayOf(x, y))
    ensures Elements(AndNotArrayOf(x, y)) == Difference(Elements(x), Elements(y))
  {
    ArrayInRange(x.bitmap, y);
    assert y.content[..y.cardinality] == Elements(y);
    EnumerateClearBits(x.bitmap, Elements(y));
  }
}
