/**
  RoaringBitmap/ArrayContainer.cs, the earlier snapshot of the array
  container.  It differs from RoaringBitmap/Internal/ArrayContainer.cs in
  three ways that the model keeps:

  - most operators build their result with a constructor that allocates the
    buffer and lets a fill function write it, taking the cardinality from the
    function's return value.  The fill functions are lambdas over kernels of
    Util.cs or `BitmapContainer.FillArray`; they are modelled as the values of
    the datatype `Fill`, and the constructor as the method `WithFill`;
  - `^` does return the array built from the xor bitmap when the operands
    sum to more than `MaxSize` but the xor has at most `MaxSize` members;
  - `Equals` compares the whole buffer, slack included.

  Where the two snapshots run the same code (the `&`/`AndNot` filters
  against a bitmap, `~`, and the in-place helpers), the members of
  `ArrayContainers` model both.
 */
module LegacyArrayContainers {
  import opened Words
  import opened Sorted
  import opened BitmapWords
  import opened Util
  import opened Containers
  import BitmapContainers
  import ArrayContainers

  /** The fill functions the operators hand to the constructor. */
  datatype Fill =
    | IntersectFill(x: Container, y: Container)
    | UnionFill(x: Container, y: Container)
    | XorFill(x: Container, y: Container)
    | DifferenceFill(x: Container, y: Container)
    | BitmapFill(bc: Container)

  /** The operands a fill function is ever built from: valid array containers, or a valid bitmap for `FillArray`. */
  predicate Ready(job: Fill)
  {
    match job
    case BitmapFill(bc) => bc.BitmapContainer? && Valid(bc)
    case _ => job.x.ArrayContainer? && job.y.ArrayContainer? && Valid(job.x) && Valid(job.y)
  }

  /** What a fill function writes: a strictly increasing run of 16-bit values. */
  function Output(job: Fill): (s: seq<int>)
    requires Ready(job)
    ensures Increasing(s) && Short(s)
  {
    match job
    case IntersectFill(x, y) =>
      IntersectSpec(Elements(x), Elements(y));
      ShortFrom(Intersect(Elements(x), Elements(y)), Elements(x), Elements(y));
      Intersect(Elements(x), Elements(y))
    case UnionFill(x, y) =>
      UnionSpec(Elements(x), Elements(y));
      ShortFrom(Union(Elements(x), Elements(y)), Elements(x), Elements(y));
      Union(Elements(x), Elements(y))
    case XorFill(x, y) =>
      SymDiffSpec(Elements(x), Elements(y));
      ShortFrom(SymDiff(Elements(x), Elements(y)), Elements(x), Elements(y));
      SymDiff(Elements(x), Elements(y))
    case DifferenceFill(x, y) =>
      DifferenceSpec(Elements(x), Elements(y));
      ShortFrom(Difference(Elements(x), Elements(y)), Elements(x), Elements(y));
      Difference(Elements(x), Elements(y))
    case BitmapFill(bc) => Elements(bc)
  }

  /** Applies a fill function to a buffer: it writes its output to the front and returns its length. */
  method Run(job: Fill, buffer: array<u16>) returns (written: int)
    requires Ready(job) && |Output(job)| <= buffer.Length
    modifies buffer
    ensures written == |Output(job)|
    ensures buffer[..written] == Output(job)
    ensures forall i :: written <= i < buffer.Length ==> buffer[i] == old(buffer[i])
  {
    match job
    case IntersectFill(x, y) =>
      written := IntersectArrays(x.content, x.cardinality, y.content, y.cardinality, buffer);
    case UnionFill(x, y) =>
      written := UnionArrays(x.content, x.cardinality, y.content, y.cardinality, buffer);
    case XorFill(x, y) =>
      written := XorArrays(x.content, x.cardinality, y.content, y.cardinality, buffer);
    case DifferenceFill(x, y) =>
      written := DifferenceArrays(x.content, x.cardinality, y.content, y.cardinality, buffer);
    case BitmapFill(bc) =>
      written := BitmapContainers.FillArray(bc, buffer);
  }

  /**
    The constructor `ArrayContainer(int cardinality, Func<ushort[], int>
    functor)`: a zero-filled buffer of the requested capacity, filled by the
    function, whose return value becomes the cardinality.
   */
  method WithFill(capacity: int, job: Fill) returns (c: Container)
    requires Ready(job) && |Output(job)| <= capacity
    ensures c == ArrayContainer(|Output(job)|, Pad(Output(job), capacity))
  {
    var content := new u16[capacity](_ => 0);
    var cardinality := Run(job, content);
    PadExt(content[..], Output(job), capacity);
    c := ArrayContainer(cardinality, content[..]);
  }

  /** A container built by `WithFill` is valid and holds exactly what the function wrote. */
  lemma WithFillSpec(capacity: int, job: Fill)
    requires Ready(job) && |Output(job)| <= capacity
    ensures Valid(ArrayContainer(|Output(job)|, Pad(Output(job), capacity)))
    ensures Elements(ArrayContainer(|Output(job)|, Pad(Output(job), capacity))) == Output(job)
  {
  }

  /**
    The static constructor: it fills a buffer with `0 .. MaxSize - 1` and
    then ignores it, so `Zero` is the empty container with an empty buffer.
   */
  method Initialize() returns (zero: Container)
    ensures zero == ArrayContainer(0, [])
    ensures Canonical(zero) && Elements(zero) == []
  {
    var data := new u16[MaxSize](_ => 0);
    for i := 0 to MaxSize
      invariant forall j :: 0 <= j < i ==> data[j] == j
    {
      data[i] := i as u16;
    }
    var empty := new u16[0];
    zero := ArrayContainer(0, empty[..]);
  }

  /**
    `Create(int cardinality, BitmapContainer bc)`: a buffer of `cardinality`
    entries filled by `bc.FillArray`, whose return value, `bc`'s cached
    cardinality, becomes the cardinality.  `FillArray` writes one entry per
    member, so a smaller capacity would run off the buffer.
   */
  method CreateFromBitmap(cardinality: int, bc: Container) returns (c: Container)
    requires bc.BitmapContainer? && Valid(bc) && bc.cardinality <= cardinality
    ensures c.ArrayContainer? && Valid(c) && |c.content| == cardinality
    ensures c.cardinality == bc.cardinality && Elements(c) == Elements(bc)
    ensures cardinality == bc.cardinality && cardinality <= MaxSize ==> c == Downgrade(bc.bitmap)
  {
    c := WithFill(cardinality, BitmapFill(bc));
    assert Elements(c) == Elements(bc);
  }

  /** `Equals(ArrayContainer)`: equal cardinalities, equal buffer lengths, and every slot of the buffers equal. */
  method Equals(x: Container, other: Container) returns (r: bool)
    requires x.ArrayContainer? && other.ArrayContainer?
    ensures r <==> x.cardinality == other.cardinality && x.content == other.content
  {
    if x.cardinality != other.cardinality {
      return false;
    }
    if |x.content| != |other.content| {
      return false;
    }
    for i := 0 to |x.content|
      invariant x.content[..i] == other.content[..i]
    {
      if x.content[i] != other.content[i] {
        return false;
      }
      assert x.content[..i + 1] == x.content[..i] + [x.content[i]];
      assert other.content[..i + 1] == other.content[..i] + [other.content[i]];
    }
    assert x.content[..|x.content|] == x.content;
    assert other.content[..|other.content|] == other.content;
    return true;
  }

  /**
    The strict `Equals` sees the slack: `Zero` and the empty intersection of
    two disjoint one-member containers hold the same (no) members and are
    equal for the later snapshot, but their buffers differ in length.
   */
  lemma EqualsSeesSlack()
    ensures Elements(ArrayContainer(0, [])) == Elements(ArrayContainers.AndOf(ArrayContainer(1, [1]), ArrayContainer(1, [2])))
    ensures ArrayContainers.AndOf(ArrayContainer(1, [1]), ArrayContainer(1, [2])).content != []
  {
    var x := ArrayContainer(1, [1]);
    var y := ArrayContainer(1, [2]);
    IntersectSpec(Elements(x), Elements(y));
    assert Elements(x) == [1];
    assert 1 !in Elements(y);
    assert Intersect(Elements(x), Elements(y)) == [];
  }

  // ---------------------------------------------------------------------
  // The operators built with the fill constructor

  /** `x & y`: the intersection filled into a buffer of `Math.Min` of the cardinalities, as in the later snapshot. */
  method OpAnd(x: Container, y: Container) returns (c: Container)
    requires x.ArrayContainer? && y.ArrayContainer? && Valid(x) && Valid(y)
    ensures c == ArrayContainers.AndOf(x, y)
  {
    var desiredCapacity := ArrayContainers.Min(x.cardinality, y.cardinality);
    IntersectSpec(Elements(x), Elements(y));
    c := WithFill(desiredCapacity, IntersectFill(x, y));
  }

  /**
    `x | y`: above `MaxSize` in total, the union in a buffer handed to the
    bitmap constructor when it exceeds `MaxSize`; otherwise the union filled
    into a buffer of the summed cardinalities.  Same result as the later
    snapshot.
   */
  method OpOr(x: Container, y: Container) returns (c: Container)
    requires x.ArrayContainer? && y.ArrayContainer? && Valid(x) && Valid(y)
    ensures c == ArrayContainers.OrOf(x, y)
  {
    var totalCardinality := x.cardinality + y.cardinality;
    ArrayContainers.UnionFits(x, y);
    if totalCardinality > MaxSize {
      var output := new u16[totalCardinality](_ => 0);
      var calcCardinality := UnionArrays(x.content, x.cardinality, y.content, y.cardinality, output);
      PadExt(output[..], Union(Elements(x), Elements(y)), totalCardinality);
      if calcCardinality > MaxSize {
        c := BitmapContainers.New(calcCardinality, output[..], false);
        return;
      }
      c := ArrayContainer(calcCardinality, output[..]);
      return;
    }
    c := WithFill(totalCardinality, UnionFill(x, y));
  }

  /** `AndNot(x, y)`: the difference filled into a buffer of `x`'s cardinality, as in the later snapshot. */
  method OpAndNot(x: Container, y: Container) returns (c: Container)
    requires x.ArrayContainer? && y.ArrayContainer? && Valid(x) && Valid(y)
    ensures c == ArrayContainers.AndNotOf(x, y)
  {
    DifferenceSpec(Elements(x), Elements(y));
    c := WithFill(x.cardinality, DifferenceFill(x, y));
  }

  /**
    `x ^ y` for two array containers in this snapshot: when the cardinalities
    sum to more than `MaxSize` and the xor bitmap has at most `MaxSize`
    members, the array filled from that bitmap; otherwise the symmetric
    difference in a buffer of the summed cardinalities.
   */
  function XorOf(x: Container, y: Container): Container
    requires x.ArrayContainer? && y.ArrayContainer? && Valid(x) && Valid(y)
  {
    var bits := BitmapContainers.XorBits(x.content, x.cardinality, y.content, y.cardinality);
    if x.cardinality + y.cardinality > MaxSize && Count(bits) <= MaxSize then Downgrade(bits)
    else ArrayContainers.XorOf(x, y)
  }

  method OpXor(x: Container, y: Container) returns (c: Container)
    requires x.ArrayContainer? && y.ArrayContainer? && Valid(x) && Valid(y)
    ensures c == XorOf(x, y)
  {
    var totalCardinality := x.cardinality + y.cardinality;
    if totalCardinality > MaxSize {
      var bc := BitmapContainers.CreateXor(x.content, x.cardinality, y.content, y.cardinality);
      if bc.cardinality <= MaxSize {
        c := CreateFromBitmap(bc.cardinality, bc);
        return;
      }
    }
    SymDiffSpec(Elements(x), Elements(y));
    c := WithFill(totalCardinality, XorFill(x, y));
  }

  /**
    Either way the result is a valid array container of the symmetric
    difference; it meets the `MaxSize` threshold exactly when the symmetric
    difference is small enough to, and otherwise it is the later snapshot's
    result.
   */
  lemma XorSpec(x: Container, y: Container)
    requires x.ArrayContainer? && y.ArrayContainer? && Valid(x) && Valid(y)
    ensures XorOf(x, y).ArrayContainer? && Valid(XorOf(x, y))
    ensures Elements(XorOf(x, y)) == SymDiff(Elements(x), Elements(y))
    ensures Canonical(XorOf(x, y)) <==> |SymDiff(Elements(x), Elements(y))| <= MaxSize
    ensures |SymDiff(Elements(x), Elements(y))| > MaxSize ==> XorOf(x, y) == ArrayContainers.XorOf(x, y)
  {
    var bits := BitmapContainers.XorBits(x.content, x.cardinality, y.content, y.cardinality);
    BitmapContainers.CreateXorSpec(x.content, x.cardinality, y.content, y.cardinality);
    EnumerateShort(bits);
    SymDiffSpec(Elements(x), Elements(y));
    ArrayContainers.XorSpec(x, y);
  }
}
