/**
  Strictly increasing sequences and the four two-pointer merges that
  RoaringBitmap/Internal/Util.cs implements over sorted `ushort` arrays
  (`UnionArrays`, `IntersectArrays`, `DifferenceArrays`, `XorArrays`) and that
  RoaringBitmap/RoaringArray.cs repeats over the sorted key arrays.

  Each merge is stated as the recursive two-pointer walk it performs, and the
  lemmas below give its set-level meaning: which elements it keeps, that the
  output is again strictly increasing, and how long it can be.
 */
module Sorted {

  /** Sorted without duplicates. */
  predicate Increasing(s: seq<int>)
  {
    forall i, j :: 0 <= i < j < |s| ==> s[i] < s[j]
  }

  /** The two-pointer union walk of `UnionArrays`. */
  function Union(a: seq<int>, b: seq<int>): seq<int>
    decreases |a| + |b|
  {
    if |a| == 0 then b
    else if |b| == 0 then a
    else if a[0] < b[0] then [a[0]] + Union(a[1..], b)
    else if a[0] == b[0] then [a[0]] + Union(a[1..], b[1..])
    else [b[0]] + Union(a, b[1..])
  }

  /** The two-pointer intersection walk of `LocalIntersect2By2`. */
  function Intersect(a: seq<int>, b: seq<int>): seq<int>
    decreases |a| + |b|
  {
    if |a| == 0 || |b| == 0 then []
    else if a[0] < b[0] then Intersect(a[1..], b)
    else if a[0] == b[0] then [a[0]] + Intersect(a[1..], b[1..])
    else Intersect(a, b[1..])
  }

  /** The two-pointer difference walk of `DifferenceArrays`. */
  function Difference(a: seq<int>, b: seq<int>): seq<int>
    decreases |a| + |b|
  {
    if |a| == 0 then []
    else if |b| == 0 then a
    else if a[0] < b[0] then [a[0]] + Difference(a[1..], b)
    else if a[0] == b[0] then Difference(a[1..], b[1..])
    else Difference(a, b[1..])
  }

  /** The two-pointer symmetric-difference walk of `XorArrays`. */
  function SymDiff(a: seq<int>, b: seq<int>): seq<int>
    decreases |a| + |b|
  {
    if |a| == 0 then b
    else if |b| == 0 then a
    else if a[0] < b[0] then [a[0]] + SymDiff(a[1..], b)
    else if a[0] == b[0] then SymDiff(a[1..], b[1..])
    else [b[0]] + SymDiff(a, b[1..])
  }

  lemma IncreasingTail(s: seq<int>)
    requires Increasing(s) && |s| > 0
    ensures Increasing(s[1..])
    ensures forall x :: x in s[1..] ==> s[0] < x
  {
  }

  lemma IncreasingCons(x: int, s: seq<int>)
    requires Increasing(s)
    requires forall y :: y in s ==> x < y
    ensures Increasing([x] + s)
  {
    var t := [x] + s;
    forall i, j | 0 <= i < j < |t| ensures t[i] < t[j] {
      assert t[j] == s[j - 1];
      if i > 0 {
        assert t[i] == s[i - 1];
      } else {
        assert s[j - 1] in s;
      }
    }
  }

  lemma IncreasingAppend(a: seq<int>, b: seq<int>)
    requires Increasing(a) && Increasing(b)
    requires forall x, y :: x in a && y in b ==> x < y
    ensures Increasing(a + b)
  {
    var t := a + b;
    forall i, j | 0 <= i < j < |t| ensures t[i] < t[j] {
      if j < |a| {
        assert t[i] == a[i] && t[j] == a[j];
      } else if i >= |a| {
        assert t[i] == b[i - |a|] && t[j] == b[j - |a|];
      } else {
        assert t[i] == a[i] && a[i] in a;
        assert t[j] == b[j - |a|] && b[j - |a|] in b;
      }
    }
  }

  /** The union keeps exactly the elements of either input, in increasing order. */
  lemma {:induction false} UnionSpec(a: seq<int>, b: seq<int>)
    requires Increasing(a) && Increasing(b)
    ensures Increasing(Union(a, b))
    ensures forall x :: x in Union(a, b) <==> x in a || x in b
    ensures |Union(a, b)| <= |a| + |b|
    decreases |a| + |b|
  {
    if |a| > 0 && |b| > 0 {
      IncreasingTail(a);
      IncreasingTail(b);
      if a[0] < b[0] {
        UnionSpec(a[1..], b);
        IncreasingCons(a[0], Union(a[1..], b));
      } else if a[0] == b[0] {
        UnionSpec(a[1..], b[1..]);
        IncreasingCons(a[0], Union(a[1..], b[1..]));
      } else {
        UnionSpec(a, b[1..]);
        IncreasingCons(b[0], Union(a, b[1..]));
      }
    }
  }

  /** The intersection keeps exactly the common elements, in increasing order. */
  lemma {:induction false} IntersectSpec(a: seq<int>, b: seq<int>)
    requires Increasing(a) && Increasing(b)
    ensures Increasing(Intersect(a, b))
    ensures forall x :: x in Intersect(a, b) <==> x in a && x in b
    ensures |Intersect(a, b)| <= |a| && |Intersect(a, b)| <= |b|
    decreases |a| + |b|
  {
    if |a| > 0 && |b| > 0 {
      IncreasingTail(a);
      IncreasingTail(b);
      if a[0] < b[0] {
        IntersectSpec(a[1..], b);
      } else if a[0] == b[0] {
        IntersectSpec(a[1..], b[1..]);
        IncreasingCons(a[0], Intersect(a[1..], b[1..]));
      } else {
        IntersectSpec(a, b[1..]);
      }
    }
  }

  /** The difference keeps exactly the elements of `a` missing from `b`, in increasing order. */
  lemma {:induction false} DifferenceSpec(a: seq<int>, b: seq<int>)
    requires Increasing(a) && Increasing(b)
    ensures Increasing(Difference(a, b))
    ensures forall x :: x in Difference(a, b) <==> x in a && x !in b
    ensures |Difference(a, b)| <= |a|
    decreases |a| + |b|
  {
    if |a| > 0 && |b| > 0 {
      IncreasingTail(a);
      IncreasingTail(b);
      if a[0] < b[0] {
        DifferenceSpec(a[1..], b);
        IncreasingCons(a[0], Difference(a[1..], b));
      } else if a[0] == b[0] {
        DifferenceSpec(a[1..], b[1..]);
      } else {
        DifferenceSpec(a, b[1..]);
      }
    }
  }

  /** The symmetric difference keeps exactly the elements of one input only, in increasing order. */
  lemma {:induction false} SymDiffSpec(a: seq<int>, b: seq<int>)
    requires Increasing(a) && Increasing(b)
    ensures Increasing(SymDiff(a, b))
    ensures forall x :: x in SymDiff(a, b) <==> (x in a) != (x in b)
    ensures |SymDiff(a, b)| <= |a| + |b|
    decreases |a| + |b|
  {
    if |a| > 0 && |b| > 0 {
      IncreasingTail(a);
      IncreasingTail(b);
      if a[0] < b[0] {
        SymDiffSpec(a[1..], b);
        IncreasingCons(a[0], SymDiff(a[1..], b));
      } else if a[0] == b[0] {
        SymDiffSpec(a[1..], b[1..]);
      } else {
        SymDiffSpec(a, b[1..]);
        IncreasingCons(b[0], SymDiff(a, b[1..]));
      }
    }
  }

  lemma HeadIn(s: seq<int>)
    requires |s| > 0
    ensures s[0] in s
  {
  }

  /** Two increasing sequences with the same elements are the same sequence. */
  lemma {:induction false} IncreasingExt(a: seq<int>, b: seq<int>)
    requires Increasing(a) && Increasing(b)
    requires forall x :: x in a <==> x in b
    ensures a == b
    decreases |a|
  {
    if |a| > 0 && |b| > 0 {
      IncreasingTail(a);
      IncreasingTail(b);
      assert a[0] in a && b[0] in b;
      assert a[0] in b;
      assert b[0] in a;
      assert a[0] == b[0];
      forall x ensures x in a[1..] <==> x in b[1..] {
        assert x in a[1..] <==> x in a && x != a[0];
        assert x in b[1..] <==> x in b && x != b[0];
      }
      IncreasingExt(a[1..], b[1..]);
      assert a == [a[0]] + a[1..];
      assert b == [b[0]] + b[1..];
    } else if |a| > 0 {
      HeadIn(a);
      assert false;
    } else if |b| > 0 {
      HeadIn(b);
      assert false;
    }
  }

  /** The intersection does not depend on the order of its operands. */
  lemma IntersectComm(a: seq<int>, b: seq<int>)
    requires Increasing(a) && Increasing(b)
    ensures Intersect(a, b) == Intersect(b, a)
  {
    IntersectSpec(a, b);
    IntersectSpec(b, a);
    IncreasingExt(Intersect(a, b), Intersect(b, a));
  }

  /** The union does not depend on the order of its operands. */
  lemma UnionComm(a: seq<int>, b: seq<int>)
    requires Increasing(a) && Increasing(b)
    ensures Union(a, b) == Union(b, a)
  {
    UnionSpec(a, b);
    UnionSpec(b, a);
    IncreasingExt(Union(a, b), Union(b, a));
  }

  /** Nor does the symmetric difference. */
  lemma SymDiffComm(a: seq<int>, b: seq<int>)
    requires Increasing(a) && Increasing(b)
    ensures SymDiff(a, b) == SymDiff(b, a)
  {
    SymDiffSpec(a, b);
    SymDiffSpec(b, a);
    IncreasingExt(SymDiff(a, b), SymDiff(b, a));
  }

  /**
    Skipping elements of `b` that are smaller than the head of `a` does not
    change the intersection: the galloping search never jumps over a match.
   */
  lemma {:induction false} IntersectSkip(a: seq<int>, b: seq<int>, n: nat)
    requires |a| > 0 && n <= |b|
    requires forall i :: 0 <= i < n ==> b[i] < a[0]
    ensures Intersect(a, b) == Intersect(a, b[n..])
    decreases n
  {
    if n > 0 {
      IntersectSkip(a, b, n - 1);
      assert b[n - 1..][1..] == b[n..];
    }
  }

  /** When every element of `a` is below every element of `b`, the symmetric difference is their concatenation. */
  lemma SymDiffSeparated(a: seq<int>, b: seq<int>)
    requires Increasing(a) && Increasing(b)
    requires forall x, y :: x in a && y in b ==> x < y
    ensures SymDiff(a, b) == a + b
  {
    SymDiffSpec(a, b);
    IncreasingAppend(a, b);
    forall x
      ensures x in SymDiff(a, b) <==> x in a + b
    {
      if x in a && x in b {
        assert false;
      }
    }
    IncreasingExt(SymDiff(a, b), a + b);
  }

  /** The union walk never loses length: it is at least as long as either input. */
  lemma {:induction false} UnionLonger(a: seq<int>, b: seq<int>)
    ensures |Union(a, b)| >= |a| && |Union(a, b)| >= |b|
    decreases |a| + |b|
  {
    if |a| > 0 && |b| > 0 {
      if a[0] < b[0] {
        UnionLonger(a[1..], b);
      } else if a[0] == b[0] {
        UnionLonger(a[1..], b[1..]);
      } else {
        UnionLonger(a, b[1..]);
      }
    }
  }
}
