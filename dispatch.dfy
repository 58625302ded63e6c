/**
  RoaringBitmap/Container.cs: the operators on containers of either kind.
  Each one tests the kinds of its operands and calls the typed operator of
  the array or bitmap container; a mixed `|` or `^` with the array on the
  left is answered by the bitmap operator with the operands swapped.

  The typed operators are those of the later snapshot
  (RoaringBitmap/Internal/ArrayContainer.cs). The earlier snapshot, which
  C# name lookup in `namespace RoaringBitmap` would bind, differs in `^` of
  two array containers (`LegacyArrayContainers.XorOf`) and in `Equals`,
  which also compares the buffer slack (`LegacyArrayContainers.Equals`).
 */
module ContainerDispatch {
  import opened Words
  import opened Sorted
  import opened BitmapWords
  import opened Containers
  import BitmapContainers
  import ArrayContainers
  import BitmapOperators

  function Or(x: Container, y: Container): (r: Container)
    requires Valid(x) && Valid(y)
    ensures Valid(r)
  {
    match (x, y)
    case (ArrayContainer(_, _), ArrayContainer(_, _)) => ArrayContainers.OrSpec(x, y); ArrayContainers.OrOf(x, y)
    case (ArrayContainer(_, _), BitmapContainer(_, _)) => BitmapOperators.OrArraySpec(y, x); BitmapOperators.OrArrayOf(y, x)
    case (BitmapContainer(_, _), ArrayContainer(_, _)) => BitmapOperators.OrArraySpec(x, y); BitmapOperators.OrArrayOf(x, y)
    case (BitmapContainer(_, _), BitmapContainer(_, _)) => BitmapOperators.OrSpec(x, y); BitmapOperators.OrOf(x, y)
  }

  function And(x: Container, y: Container): (r: Container)
    requires Valid(x) && Valid(y)
    ensures Valid(r)
  {
    match (x, y)
    case (ArrayContainer(_, _), ArrayContainer(_, _)) => ArrayContainers.AndSpec(x, y); ArrayContainers.AndOf(x, y)
    case (ArrayContainer(_, _), BitmapContainer(_, _)) => ArrayContainers.AndBitmapSpec(x, y); ArrayContainers.AndBitmapOf(x, y)
    case (BitmapContainer(_, _), ArrayContainer(_, _)) => BitmapOperators.AndArraySpec(x, y); BitmapOperators.AndArrayOf(x, y)
    case (BitmapContainer(_, _), BitmapContainer(_, _)) => BitmapOperators.AndSpec(x, y); BitmapOperators.AndOf(x, y)
  }

  function Xor(x: Container, y: Container): (r: Container)
    requires Valid(x) && Valid(y)
    ensures Valid(r)
  {
    match (x, y)
    case (ArrayContainer(_, _), ArrayContainer(_, _)) => ArrayContainers.XorSpec(x, y); ArrayContainers.XorOf(x, y)
    case (ArrayContainer(_, _), BitmapContainer(_, _)) => BitmapOperators.XorArraySpec(y, x); BitmapOperators.XorArrayOf(y, x)
    case (BitmapContainer(_, _), ArrayContainer(_, _)) => BitmapOperators.XorArraySpec(x, y); BitmapOperators.XorArrayOf(x, y)
    case (BitmapContainer(_, _), BitmapContainer(_, _)) => BitmapOperators.XorSpec(x, y); BitmapOperators.XorOf(x, y)
  }

  function Not(x: Container): (r: Container)
    requires Valid(x)
    ensures Valid(r)
  {
    match x
    case ArrayContainer(_, _) => ArrayContainers.NotSpec(x, 0); ArrayContainers.NotOf(x)
    case BitmapContainer(_, _) => BitmapOperators.NotSpec(x, 0); BitmapOperators.NotOf(x)
  }

  function AndNot(x: Container, y: Container): (r: Container)
    requires Valid(x) && Valid(y)
    ensures Valid(r)
  {
    match (x, y)
    case (ArrayContainer(_, _), ArrayContainer(_, _)) => ArrayContainers.AndNotSpec(x, y); ArrayContainers.AndNotOf(x, y)
    case (ArrayContainer(_, _), BitmapContainer(_, _)) => ArrayContainers.AndNotBitmapSpec(x, y); ArrayContainers.AndNotBitmapOf(x, y)
    case (BitmapContainer(_, _), ArrayContainer(_, _)) => BitmapOperators.AndNotArraySpec(x, y); BitmapOperators.AndNotArrayOf(x, y)
    case (BitmapContainer(_, _), BitmapContainer(_, _)) => BitmapOperators.AndNotSpec(x, y); BitmapOperators.AndNotOf(x, y)
  }

  /** Whatever the kinds, `x | y` is a container of the members of either; canonical operands give a canonical result. */
  lemma OrSpec(x: Container, y: Container)
    requires Valid(x) && Valid(y)
    ensures Elements(Or(x, y)) == Union(Elements(x), Elements(y))
    ensures Canonical(x) && Canonical(y) ==> Canonical(Or(x, y))
  {
    match (x, y)
    case (ArrayContainer(_, _), ArrayContainer(_, _)) =>
      ArrayContainers.OrSpec(x, y);
    case (ArrayContainer(_, _), BitmapContainer(_, _)) =>
      BitmapOperators.OrArraySpec(y, x);
      UnionComm(Elements(x), Elements(y));
    case (BitmapContainer(_, _), ArrayContainer(_, _)) =>
      BitmapOperators.OrArraySpec(x, y);
    case (BitmapContainer(_, _), BitmapContainer(_, _)) =>
      BitmapOperators.OrSpec(x, y);
  }

  /** `x & y` is a container of the common members, canonical for canonical operands. */
  lemma AndSpec(x: Container, y: Container)
    requires Valid(x) && Valid(y)
    ensures Elements(And(x, y)) == Intersect(Elements(x), Elements(y))
    ensures Canonical(x) && Canonical(y) ==> Canonical(And(x, y))
  {
    match (x, y)
    case (ArrayContainer(_, _), ArrayContainer(_, _)) =>
      ArrayContainers.AndSpec(x, y);
    case (ArrayContainer(_, _), BitmapContainer(_, _)) =>
      ArrayContainers.AndBitmapSpec(x, y);
    case (BitmapContainer(_, _), ArrayContainer(_, _)) =>
      BitmapOperators.AndArraySpec(x, y);
    case (BitmapContainer(_, _), BitmapContainer(_, _)) =>
      BitmapOperators.AndSpec(x, y);
  }

  /**
    `x ^ y` is a container of the members of exactly one operand.  It is
    canonical for canonical operands unless both are array containers: then
    it is an array container whatever its size.
   */
  lemma XorSpec(x: Container, y: Container)
    requires Valid(x) && Valid(y)
    ensures Elements(Xor(x, y)) == SymDiff(Elements(x), Elements(y))
    ensures x.ArrayContainer? && y.ArrayContainer? ==> Xor(x, y).ArrayContainer?
    ensures Canonical(x) && Canonical(y) && !(x.ArrayContainer? && y.ArrayContainer?) ==> Canonical(Xor(x, y))
  {
    match (x, y)
    case (ArrayContainer(_, _), ArrayContainer(_, _)) =>
      ArrayContainers.XorSpec(x, y);
    case (ArrayContainer(_, _), BitmapContainer(_, _)) =>
      BitmapOperators.XorArraySpec(y, x);
      SymDiffComm(Elements(x), Elements(y));
    case (BitmapContainer(_, _), ArrayContainer(_, _)) =>
      BitmapOperators.XorArraySpec(x, y);
    case (BitmapContainer(_, _), BitmapContainer(_, _)) =>
      BitmapOperators.XorSpec(x, y);
  }

  /** `AndNot(x, y)` is a container of the members of `x` that `y` lacks, canonical for canonical operands. */
  lemma AndNotSpec(x: Container, y: Container)
    requires Valid(x) && Valid(y)
    ensures Elements(AndNot(x, y)) == Difference(Elements(x), Elements(y))
    ensures Canonical(x) && Canonical(y) ==> Canonical(AndNot(x, y))
  {
    match (x, y)
    case (ArrayContainer(_, _), ArrayContainer(_, _)) =>
      ArrayContainers.AndNotSpec(x, y);
    case (ArrayContainer(_, _), BitmapContainer(_, _)) =>
      ArrayContainers.AndNotBitmapSpec(x, y);
    case (BitmapContainer(_, _), ArrayContainer(_, _)) =>
      BitmapOperators.AndNotArraySpec(x, y);
    case (BitmapContainer(_, _), BitmapContainer(_, _)) =>
      BitmapOperators.AndNotSpec(x, y);
  }

  /** `~x` holds exactly the 16-bit values `x` lacks, `65536 - cardinality` of them; it is canonical when `x` is. */
  lemma NotSpec(x: Container, v: int)
    requires Valid(x)
    ensures Not(x).cardinality == MaxCapacity - x.cardinality
    ensures v in Elements(Not(x)) <==> 0 <= v < MaxCapacity && v !in Elements(x)
    ensures Canonical(x) ==> Canonical(Not(x))
  {
    match x
    case ArrayContainer(_, _) => ArrayContainers.NotSpec(x, v);
    case BitmapContainer(_, _) => BitmapOperators.NotSpec(x, v);
  }

  /** Complementing twice gives back the members. */
  lemma NotNot(x: Container)
    requires Valid(x)
    ensures Elements(Not(Not(x))) == Elements(x)
  {
    NotSpec(x, 0);
    NotSpec(Not(x), 0);
    forall v
      ensures v in Elements(Not(Not(x))) <==> v in Elements(x)
    {
      NotSpec(x, v);
      NotSpec(Not(x), v);
      if v in Elements(x) {
        var i :| 0 <= i < |Elements(x)| && Elements(x)[i] == v;
      }
    }
    IncreasingExt(Elements(Not(Not(x))), Elements(x));
  }

  /**
    The virtual `Equals(object)` of the two container classes: false across
    kinds, otherwise the typed `Equals` (the used prefixes of two array
    containers, the cardinalities and words of two bitmaps).
   */
  predicate Same(x: Container, y: Container)
    requires Valid(x) && Valid(y)
  {
    match (x, y)
    case (ArrayContainer(xc, xs), ArrayContainer(yc, ys)) => xc == yc && xs[..xc] == ys[..yc]
    case (BitmapContainer(xc, xw), BitmapContainer(yc, yw)) => xc == yc && xw == yw
    case _ => false
  }

  method Equals(x: Container, other: Container) returns (r: bool)
    requires Valid(x) && Valid(other)
    ensures r == Same(x, other)
  {
    if x.ArrayContainer? && other.ArrayContainer? {
      r := ArrayContainers.Equals(x, other);
    } else if x.BitmapContainer? && other.BitmapContainer? {
      r := BitmapContainers.Equals(x, other);
    } else {
      r := false;
    }
  }

  /**
    Equal containers hold the same members; for canonical containers the
    converse holds too, since the cardinality fixes the kind and the members
    fix the used prefix or the words.
   */
  lemma SameMembers(x: Container, y: Container)
    requires Valid(x) && Valid(y)
    ensures Same(x, y) ==> Elements(x) == Elements(y)
    ensures Canonical(x) && Canonical(y) && Elements(x) == Elements(y) ==> Same(x, y)
  {
    if Canonical(x) && Canonical(y) && Elements(x) == Elements(y) && x.BitmapContainer? && y.BitmapContainer? {
      EnumerateSpec(x.bitmap);
      EnumerateSpec(y.bitmap);
      BitmapExt(x.bitmap, y.bitmap);
    }
  }
}
