/**
  RoaringBitmap/Internal/ArrayContainer.cs: a container that keeps its
  members as a sorted `ushort[]` together with their number.  The buffer may
  be longer than the cardinality; the slack stays zero.

  Each operator is a method that allocates the zero-filled buffer the source
  allocates and runs the same kernel or loop over it; the function named
  `...Of` beside it is the container it builds, and the lemma named `...Spec`
  says what that container holds.  The functions are what the type dispatch of
  RoaringBitmap/Container.cs composes.

  The operators are stated for valid operands, the invariant every
  constructor of the library establishes: the used prefix strictly
  increases, and a bitmap caches its population count.
 */
module ArrayContainers {
  import opened Words
  import opened Sorted
  import opened BitmapWords
  import opened Util
  import opened Containers
  import BitmapContainers

  function Min(a: int, b: int): int
  {
    if a < b then a else b
  }

  /** The values `0 .. n - 1` in order. */
  function Upto(n: nat): (s: seq<u16>)
    requires n <= MaxCapacity
    ensures |s| == n && forall i :: 0 <= i < n ==> s[i] == i
  {
    seq(n, i requires 0 <= i < n => i as u16)
  }

  /** The static constructor: `One` holds `0 .. MaxSize - 1`. */
  method One() returns (c: Container)
    ensures c == ArrayContainer(MaxSize, Upto(MaxSize))
    ensures Canonical(c) && forall v :: v in Elements(c) <==> 0 <= v < MaxSize
  {
    var data := new u16[MaxSize](_ => 0);
    for i := 0 to MaxSize
      invariant forall j :: 0 <= j < i ==> data[j] == j
    {
      data[i] := i as u16;
    }
    assert data[..] == Upto(MaxSize);
    c := ArrayContainer(MaxSize, data[..]);
    assert c.content[..MaxSize] == c.content;
    forall v
      ensures v in Elements(c) <==> 0 <= v < MaxSize
    {
      if 0 <= v < MaxSize {
        assert c.content[v] == v;
      }
    }
  }

  /** `Create(ushort[] values)`: the whole array is the content and its length the cardinality. */
  function Create(values: seq<u16>): (c: Container)
    ensures c.ArrayContainer?
    ensures Increasing(values) ==> Valid(c) && Elements(c) == values
  {
    assert values[..|values|] == values;
    ArrayContainer(|values|, values)
  }

  /**
    `Create(BitmapContainer bc)`: a buffer of `bc.Cardinality` entries filled
    by `FillArray`, with the cardinality `FillArray` returns.
   */
  method CreateFromBitmap(bc: Container) returns (c: Container)
    requires bc.BitmapContainer? && Valid(bc)
    ensures c.ArrayContainer? && c.cardinality == bc.cardinality && c.content == Elements(bc)
    ensures Valid(c) && Elements(c) == Elements(bc)
  {
    var data := new u16[bc.cardinality](_ => 0);
    var cardinality := BitmapContainers.FillArray(bc, data);
    assert data[..] == data[..Count(bc.bitmap)];
    c := ArrayContainer(cardinality, data[..]);
    assert c.content[..c.cardinality] == c.content;
  }

  /** An array container built from a valid bitmap of at most `MaxSize` members is the one `Downgrade` names. */
  lemma CreateFromBitmapDowngrade(bc: Container, c: Container)
    requires bc.BitmapContainer? && Valid(bc) && bc.cardinality <= MaxSize
    requires c.ArrayContainer? && c.cardinality == bc.cardinality && c.content == Elements(bc)
    ensures c == Downgrade(bc.bitmap)
  {
  }

  /** `Equals(ArrayContainer)`: same cardinality, then the used prefixes compared entry by entry. */
  method Equals(x: Container, other: Container) returns (r: bool)
    requires x.ArrayContainer? && 0 <= x.cardinality <= |x.content|
    requires other.ArrayContainer? && 0 <= other.cardinality <= |other.content|
    ensures r <==> x.cardinality == other.cardinality && x.content[..x.cardinality] == other.content[..other.cardinality]
  {
    if x.cardinality != other.cardinality {
      return false;
    }
    for i := 0 to x.cardinality
      invariant x.content[..i] == other.content[..i]
    {
      if x.content[i] != other.content[i] {
        assert x.content[..x.cardinality][i] != other.content[..other.cardinality][i];
        return false;
      }
      assert x.content[..i + 1] == x.content[..i] + [x.content[i]];
      assert other.content[..i + 1] == other.content[..i] + [other.content[i]];
    }
    return true;
  }

  /** `EqualsInternal`: false for a bitmap container, whatever its members. */
  method EqualsInternal(x: Container, other: Container) returns (r: bool)
    requires x.ArrayContainer? && 0 <= x.cardinality <= |x.content|
    requires other.ArrayContainer? ==> 0 <= other.cardinality <= |other.content|
    ensures r <==> other.ArrayContainer? && x.cardinality == other.cardinality
                   && x.content[..x.cardinality] == other.content[..other.cardinality]
  {
    if !other.ArrayContainer? {
      return false;
    }
    r := Equals(x, other);
  }

  /** For valid array containers, `Equals` holds exactly when they have the same members; the slack does not matter. */
  lemma EqualsMembers(x: Container, other: Container)
    requires Valid(x) && Valid(other) && x.ArrayContainer? && other.ArrayContainer?
    ensures (x.cardinality == other.cardinality && x.content[..x.cardinality] == other.content[..other.cardinality])
        <==> Elements(x) == Elements(other)
  {
  }

  // ---------------------------------------------------------------------
  // Array & Array

  /** `x & y` for two array containers: the intersection in a buffer of `Math.Min` of the cardinalities. */
  function AndOf(x: Container, y: Container): Container
    requires x.ArrayContainer? && y.ArrayContainer? && Valid(x) && Valid(y)
  {
    IntersectSpec(Elements(x), Elements(y));
    ShortFrom(Intersect(Elements(x), Elements(y)), Elements(x), Elements(y));
    var common := Intersect(Elements(x), Elements(y));
    ArrayContainer(|common|, Pad(common, Min(x.cardinality, y.cardinality)))
  }

  method OpAnd(x: Container, y: Container) returns (c: Container)
    requires x.ArrayContainer? && y.ArrayContainer? && Valid(x) && Valid(y)
    ensures c == AndOf(x, y)
  {
    var desiredCapacity := Min(x.cardinality, y.cardinality);
    var data := new u16[desiredCapacity](_ => 0);
    IntersectSpec(Elements(x), Elements(y));
    var calculatedCardinality := IntersectArrays(x.content, x.cardinality, y.content, y.cardinality, data);
    ShortFrom(Intersect(Elements(x), Elements(y)), Elements(x), Elements(y));
    PadExt(data[..], Intersect(Elements(x), Elements(y)), desiredCapacity);
    c := ArrayContainer(calculatedCardinality, data[..]);
  }

  /** The intersection is a valid array container of the common members, no larger than either operand. */
  lemma AndSpec(x: Container, y: Container)
    requires x.ArrayContainer? && y.ArrayContainer? && Valid(x) && Valid(y)
    ensures AndOf(x, y).ArrayContainer? && Valid(AndOf(x, y))
    ensures Elements(AndOf(x, y)) == Intersect(Elements(x), Elements(y))
    ensures AndOf(x, y).cardinality <= x.cardinality && AndOf(x, y).cardinality <= y.cardinality
    ensures Canonical(x) ==> Canonical(AndOf(x, y))
  {
    var common := Intersect(Elements(x), Elements(y));
    IntersectSpec(Elements(x), Elements(y));
    assert Elements(AndOf(x, y)) == common;
  }

  // ---------------------------------------------------------------------
  // Array & Bitmap, AndNot(Array, Bitmap)

  /** The entries of `s`, in order, whose membership in the bitmap `ws` is `present`. */
  function Select(s: seq<int>, ws: seq<bv64>, present: bool): (r: seq<int>)
    ensures |r| <= |s|
    decreases |s|
  {
    if |s| == 0 then []
    else Select(s[..|s| - 1], ws, present) + (if (s[|s| - 1] in Enumerate(ws)) == present then [s[|s| - 1]] else [])
  }

  /** One more entry of `s` considered: it is kept or not. */
  lemma SelectNext(s: seq<u16>, i: int, ws: seq<bv64>, present: bool)
    requires 0 <= i < |s|
    ensures Select(s[..i + 1], ws, present)
         == Select(s[..i], ws, present) + (if (s[i] as int in Enumerate(ws)) == present then [s[i] as int] else [])
  {
    assert s[..i + 1][..i] == s[..i];
  }

  /** From increasing `s`, `Select` keeps an increasing sequence of exactly the entries with the wanted membership. */
  lemma SelectSpec(s: seq<int>, ws: seq<bv64>, present: bool)
    requires Increasing(s)
    ensures Increasing(Select(s, ws, present))
    ensures forall v :: v in Select(s, ws, present) <==> v in s && (v in Enumerate(ws)) == present
  {
    SelectOrdered(s, ws, present);
    forall v
      ensures v in Select(s, ws, present) <==> v in s && (v in Enumerate(ws)) == present
    {
      SelectMember(s, ws, present, v);
    }
  }

  /** `Select` keeps a value exactly when it is an entry with the wanted membership. */
  lemma {:induction false} SelectMember(s: seq<int>, ws: seq<bv64>, present: bool, v: int)
    ensures v in Select(s, ws, present) <==> v in s && (v in Enumerate(ws)) == present
    decreases |s|
  {
    if |s| > 0 {
      var n := |s| - 1;
      SelectMember(s[..n], ws, present, v);
      assert s == s[..n] + [s[n]];
    }
  }

  /** From increasing `s`, `Select` keeps an increasing sequence. */
  lemma {:induction false} SelectOrdered(s: seq<int>, ws: seq<bv64>, present: bool)
    requires Increasing(s)
    ensures Increasing(Select(s, ws, present))
    decreases |s|
  {
    if |s| > 0 {
      var n := |s| - 1;
      var front := s[..n];
      FrontBelow(s, front);
      SelectOrdered(front, ws, present);
      var kept := Select(front, ws, present);
      SelectBelow(front, ws, present, s[n]);
      if (s[n] in Enumerate(ws)) == present {
        assert Select(s, ws, present) == kept + [s[n]];
        AppendAbove(kept, s[n]);
      } else {
        assert Select(s, ws, present) == kept + [];
        assert kept + [] == kept;
      }
    }
  }

  /** What `Select` keeps lies below every bound of its input. */
  lemma SelectBelow(s: seq<int>, ws: seq<bv64>, present: bool, bound: int)
    requires forall v :: v in s ==> v < bound
    ensures forall v :: v in Select(s, ws, present) ==> v < bound
  {
    forall v | v in Select(s, ws, present)
      ensures v < bound
    {
      SelectMember(s, ws, present, v);
    }
  }

  /** An increasing sequence followed by a value above all of it still increases. */
  lemma AppendAbove(a: seq<int>, x: int)
    requires Increasing(a) && forall v :: v in a ==> v < x
    ensures Increasing(a + [x])
  {
    forall v, w | v in a && w in [x]
      ensures v < w
    {
    }
    IncreasingAppend(a, [x]);
  }

  /** The front of an increasing sequence increases, and lies below its last entry. */
  lemma FrontBelow(s: seq<int>, front: seq<int>)
    requires Increasing(s) && |s| > 0 && front == s[..|s| - 1]
    ensures Increasing(front)
    ensures forall v :: v in front ==> v < s[|s| - 1]
  {
    forall v | v in front
      ensures v < s[|s| - 1]
    {
      var i :| 0 <= i < |front| && front[i] == v;
      assert s[i] == v;
    }
  }

  /** Selecting the members of a bitmap is the intersection with its enumeration; selecting the others, the difference. */
  lemma SelectWalks(s: seq<int>, ws: seq<bv64>)
    requires Increasing(s)
    ensures Select(s, ws, true) == Intersect(s, Enumerate(ws))
    ensures Select(s, ws, false) == Difference(s, Enumerate(ws))
  {
    EnumerateSpec(ws);
    SelectSpec(s, ws, true);
    SelectSpec(s, ws, false);
    IntersectSpec(s, Enumerate(ws));
    DifferenceSpec(s, Enumerate(ws));
    IncreasingExt(Select(s, ws, true), Intersect(s, Enumerate(ws)));
    IncreasingExt(Select(s, ws, false), Difference(s, Enumerate(ws)));
  }

  /** The members `Select` keeps from a 16-bit sequence are 16-bit values. */
  lemma SelectShort(s: seq<int>, ws: seq<bv64>, present: bool)
    requires Increasing(s) && Short(s)
    ensures Short(Select(s, ws, present))
  {
    SelectSpec(s, ws, present);
    ShortFrom(Select(s, ws, present), s, s);
  }

  /**
    The filter loop shared by `x & y` and `AndNot(x, y)` for an array `x` and
    a bitmap `y`: a buffer as long as `x`'s whole buffer, into which the
    entries of `x` that `y.Contains` (or does not) are written in order.
   */
  function FilterOf(x: Container, y: Container, present: bool): Container
    requires x.ArrayContainer? && y.BitmapContainer? && Valid(x) && Valid(y)
  {
    SelectShort(Elements(x), y.bitmap, present);
    var kept := Select(Elements(x), y.bitmap, present);
    ArrayContainer(|kept|, Pad(kept, |x.content|))
  }

  /** `x & y` for an array container `x` and a bitmap container `y`. */
  function AndBitmapOf(x: Container, y: Container): Container
    requires x.ArrayContainer? && y.BitmapContainer? && Valid(x) && Valid(y)
  {
    FilterOf(x, y, true)
  }

  /** `AndNot(x, y)` for an array container `x` and a bitmap container `y`. */
  function AndNotBitmapOf(x: Container, y: Container): Container
    requires x.ArrayContainer? && y.BitmapContainer? && Valid(x) && Valid(y)
  {
    FilterOf(x, y, false)
  }

  /** The loop of `x & y` and `AndNot(x, y)` over the first `Cardinality` entries of `x`. */
  method Filter(x: Container, y: Container, present: bool) returns (c: Container)
    requires x.ArrayContainer? && y.BitmapContainer? && Valid(x) && Valid(y)
    ensures c == FilterOf(x, y, present)
  {
    var data, pos := FilterLoop(x.content, x.cardinality, y.bitmap, present);
    FilterDone(x, y, present, data[..], pos);
    c := ArrayContainer(pos, data[..]);
  }

  /** The loop itself: `data[pos++] = v` for each of the first `count` entries `v` whose membership is `present`, into a zeroed buffer as long as `content`. */
  method FilterLoop(content: seq<u16>, count: int, bitmap: seq<bv64>, present: bool) returns (data: array<u16>, pos: int)
    requires 0 <= count <= |content| && |bitmap| == BitmapLength
    ensures fresh(data) && data.Length == |content| && 0 <= pos <= count
    ensures data[..pos] == Select(content[..count], bitmap, present)
    ensures forall j :: pos <= j < data.Length ==> data[j] == 0
  {
    data := new u16[|content|](_ => 0);
    pos := 0;
    for i := 0 to count
      invariant 0 <= pos <= i
      invariant data[..pos] == Select(content[..i], bitmap, present)
      invariant forall j :: pos <= j < data.Length ==> data[j] == 0
    {
      pos := FilterStep(content, i, bitmap, present, data, pos);
    }
  }

  /** After the filter loop, the buffer and the count are the filtered container. */
  lemma FilterDone(x: Container, y: Container, present: bool, data: seq<u16>, pos: int)
    requires x.ArrayContainer? && y.BitmapContainer? && Valid(x) && Valid(y)
    requires |data| == |x.content| && 0 <= pos <= |data|
    requires data[..pos] == Select(x.content[..x.cardinality], y.bitmap, present)
    requires forall j :: pos <= j < |data| ==> data[j] == 0
    ensures ArrayContainer(pos, data) == FilterOf(x, y, present)
  {
    assert x.content[..x.cardinality] == Elements(x);
    SelectShort(Elements(x), y.bitmap, present);
    PadExt(data, Select(Elements(x), y.bitmap, present), |data|);
  }

  /** One pass of the filter loop: entry `i` is written at `pos` when `y.Contains` it is `present`. */
  method FilterStep(content: seq<u16>, i: int, bitmap: seq<bv64>, present: bool, data: array<u16>, pos: int) returns (next: int)
    requires 0 <= i < |content| <= data.Length && |bitmap| == BitmapLength
    requires 0 <= pos <= i && data[..pos] == Select(content[..i], bitmap, present)
    modifies data
    ensures pos <= next <= i + 1
    ensures data[..next] == Select(content[..i + 1], bitmap, present)
    ensures forall j :: next <= j < data.Length ==> data[j] == old(data[j])
  {
    var v := content[i];
    SelectNext(content, i, bitmap, present);
    next := pos;
    if BitmapContainers.Contains(bitmap, v) == present {
      next := Emit(data, pos, v, [], Select(content[..i + 1], bitmap, present));
    }
  }

  method OpAndBitmap(x: Container, y: Container) returns (c: Container)
    requires x.ArrayContainer? && y.BitmapContainer? && Valid(x) && Valid(y)
    ensures c == AndBitmapOf(x, y)
  {
    c := Filter(x, y, true);
  }

  method OpAndNotBitmap(x: Container, y: Container) returns (c: Container)
    requires x.ArrayContainer? && y.BitmapContainer? && Valid(x) && Valid(y)
    ensures c == AndNotBitmapOf(x, y)
  {
    c := Filter(x, y, false);
  }

  /** `x & y` with a bitmap keeps exactly the members of `x` that `y` holds. */
  lemma AndBitmapSpec(x: Container, y: Container)
    requires x.ArrayContainer? && y.BitmapContainer? && Valid(x) && Valid(y)
    ensures AndBitmapOf(x, y).ArrayContainer? && Valid(AndBitmapOf(x, y))
    ensures Elements(AndBitmapOf(x, y)) == Intersect(Elements(x), Elements(y))
    ensures AndBitmapOf(x, y).cardinality <= x.cardinality
    ensures Canonical(x) ==> Canonical(AndBitmapOf(x, y))
  {
    var kept := Select(Elements(x), y.bitmap, true);
    SelectWalks(Elements(x), y.bitmap);
    SelectSpec(Elements(x), y.bitmap, true);
    assert Elements(AndBitmapOf(x, y)) == kept;
  }

  /** `AndNot(x, y)` with a bitmap keeps exactly the members of `x` that `y` does not hold. */
  lemma AndNotBitmapSpec(x: Container, y: Container)
    requires x.ArrayContainer? && y.BitmapContainer? && Valid(x) && Valid(y)
    ensures AndNotBitmapOf(x, y).ArrayContainer? && Valid(AndNotBitmapOf(x, y))
    ensures Elements(AndNotBitmapOf(x, y)) == Difference(Elements(x), Elements(y))
    ensures AndNotBitmapOf(x, y).cardinality <= x.cardinality
    ensures Canonical(x) ==> Canonical(AndNotBitmapOf(x, y))
  {
    var kept := Select(Elements(x), y.bitmap, false);
    SelectWalks(Elements(x), y.bitmap);
    SelectSpec(Elements(x), y.bitmap, false);
    assert Elements(AndNotBitmapOf(x, y)) == kept;
  }

  // ---------------------------------------------------------------------
  // Array | Array

  /**
    `x | y` for two array containers: the union in a buffer of the summed
    cardinalities, handed to `BitmapContainer.Create(cardinality, output)`
    when the sum and then the union exceed `MaxSize`.
   */
  function OrOf(x: Container, y: Container): Container
    requires x.ArrayContainer? && y.ArrayContainer? && Valid(x) && Valid(y)
  {
    UnionSpec(Elements(x), Elements(y));
    ShortFrom(Union(Elements(x), Elements(y)), Elements(x), Elements(y));
    var totalCardinality := x.cardinality + y.cardinality;
    var united := Union(Elements(x), Elements(y));
    var output := Pad(united, totalCardinality);
    if totalCardinality > MaxSize && |united| > MaxSize then BitmapContainers.NewOf(|united|, output, false)
    else ArrayContainer(|united|, output)
  }

  /** The union of two array containers' members is 16-bit and fits a buffer of the summed cardinalities. */
  lemma UnionFits(x: Container, y: Container)
    requires x.ArrayContainer? && y.ArrayContainer? && Valid(x) && Valid(y)
    ensures Short(Union(Elements(x), Elements(y)))
    ensures |Union(Elements(x), Elements(y))| <= x.cardinality + y.cardinality
  {
    UnionSpec(Elements(x), Elements(y));
    ShortFrom(Union(Elements(x), Elements(y)), Elements(x), Elements(y));
  }

  method OpOr(x: Container, y: Container) returns (c: Container)
    requires x.ArrayContainer? && y.ArrayContainer? && Valid(x) && Valid(y)
    ensures c == OrOf(x, y)
  {
    var totalCardinality := x.cardinality + y.cardinality;
    UnionFits(x, y);
    var output := new u16[totalCardinality](_ => 0);
    var calcCardinality := UnionArrays(x.content, x.cardinality, y.content, y.cardinality, output);
    PadExt(output[..], Union(Elements(x), Elements(y)), totalCardinality);
    if totalCardinality > MaxSize && calcCardinality > MaxSize {
      c := BitmapContainers.New(calcCardinality, output[..], false);
    } else {
      c := ArrayContainer(calcCardinality, output[..]);
    }
  }

  /** The union holds exactly the members of either operand, and is a bitmap exactly when it has more than `MaxSize`. */
  lemma OrSpec(x: Container, y: Container)
    requires x.ArrayContainer? && y.ArrayContainer? && Valid(x) && Valid(y)
    ensures Canonical(OrOf(x, y))
    ensures Elements(OrOf(x, y)) == Union(Elements(x), Elements(y))
  {
    var united := Union(Elements(x), Elements(y));
    UnionSpec(Elements(x), Elements(y));
    ShortFrom(united, Elements(x), Elements(y));
    var output := Pad(united, x.cardinality + y.cardinality);
    assert output[..|united|] == united;
    if |united| > MaxSize {
      BitmapContainers.NewSpec(|united|, output, false, 0);
    } else {
      assert Elements(OrOf(x, y)) == united;
    }
  }

  // ---------------------------------------------------------------------
  // ~Array

  /** `~x` for an array container: `BitmapContainer.Create(cardinality, content, true)`. */
  function NotOf(x: Container): Container
    requires x.ArrayContainer? && Valid(x)
  {
    BitmapContainers.NewOf(x.cardinality, x.content, true)
  }

  method OpNot(x: Container) returns (c: Container)
    requires x.ArrayContainer? && Valid(x)
    ensures c == NotOf(x)
  {
    c := BitmapContainers.New(x.cardinality, x.content, true);
  }

  /** The complement is a bitmap of exactly the 16-bit values `x` lacks, `65536 - cardinality` of them. */
  lemma NotSpec(x: Container, v: int)
    requires x.ArrayContainer? && Valid(x)
    ensures NotOf(x).BitmapContainer? && Valid(NotOf(x))
    ensures NotOf(x).cardinality == MaxCapacity - x.cardinality
    ensures v in Elements(NotOf(x)) <==> 0 <= v < MaxCapacity && v !in Elements(x)
    ensures Canonical(x) ==> Canonical(NotOf(x))
  {
    BitmapContainers.NewSpec(x.cardinality, x.content, true, v);
  }

  // ---------------------------------------------------------------------
  // Array ^ Array

  /**
    `x ^ y` for two array containers: the symmetric difference in a buffer of
    the summed cardinalities, always an array container.  Above `MaxSize` the
    source also builds the xor bitmap, and from it an array container when it
    is small, but discards that result.
   */
  function XorOf(x: Container, y: Container): Container
    requires x.ArrayContainer? && y.ArrayContainer? && Valid(x) && Valid(y)
  {
    SymDiffSpec(Elements(x), Elements(y));
    ShortFrom(SymDiff(Elements(x), Elements(y)), Elements(x), Elements(y));
    var odd := SymDiff(Elements(x), Elements(y));
    ArrayContainer(|odd|, Pad(odd, x.cardinality + y.cardinality))
  }

  method OpXor(x: Container, y: Container) returns (c: Container)
    requires x.ArrayContainer? && y.ArrayContainer? && Valid(x) && Valid(y)
    ensures c == XorOf(x, y)
  {
    var totalCardinality := x.cardinality + y.cardinality;
    if totalCardinality > MaxSize {
      var bc := BitmapContainers.CreateXor(x.content, x.cardinality, y.content, y.cardinality);
      if bc.cardinality <= MaxSize {
        var discarded := CreateFromBitmap(bc);
      }
    }
    SymDiffSpec(Elements(x), Elements(y));
    ShortFrom(SymDiff(Elements(x), Elements(y)), Elements(x), Elements(y));
    var data := new u16[totalCardinality](_ => 0);
    var calculatedCardinality := XorArrays(x.content, x.cardinality, y.content, y.cardinality, data);
    PadExt(data[..], SymDiff(Elements(x), Elements(y)), totalCardinality);
    c := ArrayContainer(calculatedCardinality, data[..]);
  }

  /** The symmetric difference holds exactly the members of one operand only, always as an array container. */
  lemma XorSpec(x: Container, y: Container)
    requires x.ArrayContainer? && y.ArrayContainer? && Valid(x) && Valid(y)
    ensures XorOf(x, y).ArrayContainer? && Valid(XorOf(x, y))
    ensures Elements(XorOf(x, y)) == SymDiff(Elements(x), Elements(y))
  {
    var odd := SymDiff(Elements(x), Elements(y));
    SymDiffSpec(Elements(x), Elements(y));
    assert Elements(XorOf(x, y)) == odd;
  }

  /**
    Two canonical array containers whose xor has more than `MaxSize` members
    still give an array container: `{0 .. 4095} ^ {4096}` has 4097.
   */
  lemma XorStaysArray()
    ensures Canonical(ArrayContainer(MaxSize, Upto(MaxSize))) && Canonical(ArrayContainer(1, [MaxSize as u16]))
    ensures XorOf(ArrayContainer(MaxSize, Upto(MaxSize)), ArrayContainer(1, [MaxSize as u16])).cardinality == MaxSize + 1
    ensures !Canonical(XorOf(ArrayContainer(MaxSize, Upto(MaxSize)), ArrayContainer(1, [MaxSize as u16])))
  {
    var x := ArrayContainer(MaxSize, Upto(MaxSize));
    var y := ArrayContainer(1, [MaxSize as u16]);
    assert x.content[..MaxSize] == x.content;
    assert Elements(y) == [MaxSize];
    forall a, b | a in Elements(x) && b in Elements(y)
      ensures a < b
    {
      var i :| 0 <= i < MaxSize && Elements(x)[i] == a;
    }
    SymDiffSeparated(Elements(x), Elements(y));
  }

  // ---------------------------------------------------------------------
  // AndNot(Array, Array)

  /** `AndNot(x, y)` for two array containers: the difference in a buffer of `x`'s cardinality. */
  function AndNotOf(x: Container, y: Container): Container
    requires x.ArrayContainer? && y.ArrayContainer? && Valid(x) && Valid(y)
  {
    DifferenceSpec(Elements(x), Elements(y));
    ShortFrom(Difference(Elements(x), Elements(y)), Elements(x), Elements(y));
    var rest := Difference(Elements(x), Elements(y));
    ArrayContainer(|rest|, Pad(rest, x.cardinality))
  }

  method OpAndNot(x: Container, y: Container) returns (c: Container)
    requires x.ArrayContainer? && y.ArrayContainer? && Valid(x) && Valid(y)
    ensures c == AndNotOf(x, y)
  {
    var desiredCapacity := x.cardinality;
    var data := new u16[desiredCapacity](_ => 0);
    DifferenceSpec(Elements(x), Elements(y));
    var calculatedCardinality := DifferenceArrays(x.content, x.cardinality, y.content, y.cardinality, data);
    ShortFrom(Difference(Elements(x), Elements(y)), Elements(x), Elements(y));
    PadExt(data[..], Difference(Elements(x), Elements(y)), desiredCapacity);
    c := ArrayContainer(calculatedCardinality, data[..]);
  }

  /** The difference holds exactly the members of `x` that `y` lacks. */
  lemma AndNotSpec(x: Container, y: Container)
    requires x.ArrayContainer? && y.ArrayContainer? && Valid(x) && Valid(y)
    ensures AndNotOf(x, y).ArrayContainer? && Valid(AndNotOf(x, y))
    ensures Elements(AndNotOf(x, y)) == Difference(Elements(x), Elements(y))
    ensures AndNotOf(x, y).cardinality <= x.cardinality
    ensures Canonical(x) ==> Canonical(AndNotOf(x, y))
  {
    var rest := Difference(Elements(x), Elements(y));
    DifferenceSpec(Elements(x), Elements(y));
    assert Elements(AndNotOf(x, y)) == rest;
  }

  // ---------------------------------------------------------------------
  // The in-place helpers of the bitmap operators

  /** The prefix of `c` one entry longer stays in range, and its bits are those of the shorter prefix plus the bit of `c[i]`. */
  lemma PrefixNext(ws: seq<bv64>, c: seq<u16>, n: int, i: int)
    requires 0 <= i < n <= |c| && InRange(ws, c[..n])
    ensures InRange(ws, c[..i]) && InRange(ws, c[..i + 1])
    ensures c[i] as int / 64 < |ws|
    ensures c[..i + 1][..i] == c[..i] && c[..i + 1][i] == c[i]
  {
    assert c[..n][i] == c[i];
    var front := c[..i + 1];
    forall j | 0 <= j < |front|
      ensures 0 <= front[j] as int < 64 * |ws|
    {
      assert front[j] == c[..n][j];
    }
  }

  /** One pass of the loop of `OrArray` on the specification side. */
  lemma SetNext(ws: seq<bv64>, c: seq<u16>, n: int, i: int)
    requires 0 <= i < n <= |c| && InRange(ws, c[..n])
    ensures InRange(ws, c[..i]) && InRange(ws, c[..i + 1]) && c[i] as int / 64 < |ws|
    ensures SetBits(ws, c[..i + 1]) == SetBit(SetBits(ws, c[..i]), c[i])
  {
    PrefixNext(ws, c, n, i);
  }

  /** One pass of the loop of `XorArray` on the specification side. */
  lemma ToggleNext(ws: seq<bv64>, c: seq<u16>, n: int, i: int)
    requires 0 <= i < n <= |c| && InRange(ws, c[..n])
    ensures InRange(ws, c[..i]) && InRange(ws, c[..i + 1]) && c[i] as int / 64 < |ws|
    ensures ToggleBits(ws, c[..i + 1]) == ToggleBit(ToggleBits(ws, c[..i]), c[i])
  {
    PrefixNext(ws, c, n, i);
  }

  /** One pass of the loop of `AndNotArray` on the specification side. */
  lemma ClearNext(ws: seq<bv64>, c: seq<u16>, n: int, i: int)
    requires 0 <= i < n <= |c| && InRange(ws, c[..n])
    ensures InRange(ws, c[..i]) && InRange(ws, c[..i + 1]) && c[i] as int / 64 < |ws|
    ensures ClearBits(ws, c[..i + 1]) == ClearBit(ClearBits(ws, c[..i]), c[i])
  {
    PrefixNext(ws, c, n, i);
  }

  /**
    `OrArray(ulong[] bitmap)`: sets the bit of each of the first
    `Cardinality` entries in the caller's bitmap and returns how many bits
    were new, accumulated from `(previous - after) >> 63`.
   */
  method OrArray(x: Container, bitmap: array<bv64>) returns (extraCardinality: int)
    requires x.ArrayContainer? && 0 <= x.cardinality <= |x.content|
    requires InRange(bitmap[..], x.content[..x.cardinality])
    modifies bitmap
    ensures bitmap[..] == SetBits(old(bitmap[..]), x.content[..x.cardinality])
    ensures extraCardinality == Count(bitmap[..]) - Count(old(bitmap[..]))
  {
    ghost var before := bitmap[..];
    extraCardinality := 0;
    var yC := x.cardinality;
    for i := 0 to yC
      invariant bitmap[..] == SetBits(before, x.content[..i])
      invariant extraCardinality == Count(bitmap[..]) - Count(before)
    {
      SetNext(before, x.content, yC, i);
      var delta := OrStep(bitmap, x.content[i]);
      extraCardinality := extraCardinality + delta;
    }
  }

  /**
    `XorArray(ulong[] bitmap)`: toggles the bit of each of the first
    `Cardinality` entries and returns the change in the number of set bits,
    accumulated from `(int)(1 - 2 * ((previous & mask) >> v))`.
   */
  method XorArray(x: Container, bitmap: array<bv64>) returns (extraCardinality: int)
    requires x.ArrayContainer? && 0 <= x.cardinality <= |x.content|
    requires InRange(bitmap[..], x.content[..x.cardinality])
    modifies bitmap
    ensures bitmap[..] == ToggleBits(old(bitmap[..]), x.content[..x.cardinality])
    ensures extraCardinality == Count(bitmap[..]) - Count(old(bitmap[..]))
  {
    ghost var before := bitmap[..];
    extraCardinality := 0;
    var yC := x.cardinality;
    for i := 0 to yC
      invariant bitmap[..] == ToggleBits(before, x.content[..i])
      invariant extraCardinality == Count(bitmap[..]) - Count(before)
    {
      ToggleNext(before, x.content, yC, i);
      var delta := XorStep(bitmap, x.content[i]);
      extraCardinality := extraCardinality + delta;
    }
  }

  /**
    `AndNotArray(ulong[] bitmap)`: clears the bit of each of the first
    `Cardinality` entries and returns minus the number of bits that were set,
    accumulated from `(previous ^ after) >> v`.
   */
  method AndNotArray(x: Container, bitmap: array<bv64>) returns (extraCardinality: int)
    requires x.ArrayContainer? && 0 <= x.cardinality <= |x.content|
    requires InRange(bitmap[..], x.content[..x.cardinality])
    modifies bitmap
    ensures bitmap[..] == ClearBits(old(bitmap[..]), x.content[..x.cardinality])
    ensures extraCardinality == Count(bitmap[..]) - Count(old(bitmap[..]))
  {
    ghost var before := bitmap[..];
    extraCardinality := 0;
    var yC := x.cardinality;
    for i := 0 to yC
      invariant bitmap[..] == ClearBits(before, x.content[..i])
      invariant extraCardinality == Count(bitmap[..]) - Count(before)
    {
      ClearNext(before, x.content, yC, i);
      var delta := AndNotStep(bitmap, x.content[i]);
      extraCardinality := extraCardinality + delta;
    }
  }

  /** One pass of the loop of `OrArray`: `bitmap[v >> 6] |= 1UL << v`, and 1 when that bit was new. */
  method OrStep(bitmap: array<bv64>, yValue: u16) returns (delta: int)
    requires yValue / 64 < bitmap.Length
    modifies bitmap
    ensures bitmap[..] == SetBit(old(bitmap[..]), yValue)
    ensures delta == Count(bitmap[..]) - Count(old(bitmap[..]))
  {
    var index := yValue / 64;
    var previous := bitmap[index];
    var after := WithBit(previous, Pos(yValue));
    bitmap[index] := after;
    OrDeltaCount(old(bitmap[..]), yValue);
    delta := OrDelta(previous, Pos(yValue)) as int;
  }

  lemma OrDeltaCount(ws: seq<bv64>, v: nat)
    requires v / 64 < |ws|
    ensures OrDelta(ws[v / 64], Pos(v)) as int == Count(SetBit(ws, v)) - Count(ws)
  {
    CountSetBit(ws, v);
    OrDeltaSpec(ws[v / 64], Pos(v));
  }

  /** One pass of the loop of `XorArray`: `bitmap[v >> 6] ^= 1UL << v`, and +1 or -1 as the bit was clear or set. */
  method XorStep(bitmap: array<bv64>, yValue: u16) returns (delta: int)
    requires yValue / 64 < bitmap.Length
    modifies bitmap
    ensures bitmap[..] == ToggleBit(old(bitmap[..]), yValue)
    ensures delta == Count(bitmap[..]) - Count(old(bitmap[..]))
  {
    var index := yValue / 64;
    var previous := bitmap[index];
    bitmap[index] := FlipBit(previous, Pos(yValue));
    XorDeltaCount(old(bitmap[..]), yValue);
    delta := ToInt32(XorDelta(previous, Pos(yValue)) as int);
  }

  lemma XorDeltaCount(ws: seq<bv64>, v: nat)
    requires v / 64 < |ws|
    ensures ToInt32(XorDelta(ws[v / 64], Pos(v)) as int) == Count(ToggleBit(ws, v)) - Count(ws)
  {
    CountToggleBit(ws, v);
    XorDeltaSpec(ws[v / 64], Pos(v));
    assert ToInt32(AllOnes as int) == -1;
  }

  /** One pass of the loop of `AndNotArray`: `bitmap[v >> 6] &= ~(1UL << v)`, and -1 when that bit was set. */
  method AndNotStep(bitmap: array<bv64>, yValue: u16) returns (delta: int)
    requires yValue / 64 < bitmap.Length
    modifies bitmap
    ensures bitmap[..] == ClearBit(old(bitmap[..]), yValue)
    ensures delta == Count(bitmap[..]) - Count(old(bitmap[..]))
  {
    var index := yValue / 64;
    var previous := bitmap[index];
    var after := WithoutBit(previous, Pos(yValue));
    bitmap[index] := after;
    AndNotDeltaCount(old(bitmap[..]), yValue);
    delta := -(AndNotDelta(previous, Pos(yValue)) as int);
  }

  lemma AndNotDeltaCount(ws: seq<bv64>, v: nat)
    requires v / 64 < |ws|
    ensures -(AndNotDelta(ws[v / 64], Pos(v)) as int) == Count(ClearBit(ws, v)) - Count(ws)
  {
    CountClearBit(ws, v);
    AndNotDeltaSpec(ws[v / 64], Pos(v));
  }
}
