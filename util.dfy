/**
  The static helpers of RoaringBitmap/Internal/Util.cs: population counts, the
  two-pointer kernels over sorted `ushort` arrays that write into a caller's
  buffer, the galloping intersection with its skip primitive `AdvanceUntil`,
  and the split of a 32-bit value into bucket key and offset.

  The kernels read `set1`/`set2` and never write them, so the model passes
  them as sequences (their whole content, slack included) together with the
  prefix length the source reads; the caller's `buffer` stays an array.
 */
module Util {
  import opened Words
  import opened Sorted
  import opened BitmapWords

  datatype Option<T> = None | Some(value: T)

  /** A C# `int`. */
  type i32 = x: int | -0x8000_0000 <= x < 0x8000_0000

  /** The C# `int` a wider integer wraps to: its low 32 bits read as two's complement. */
  function ToInt32(x: int): (r: i32)
    ensures (r - x) % 0x1_0000_0000 == 0
    ensures -0x8000_0000 <= x < 0x8000_0000 ==> r == x
  {
    var m := x % 0x1_0000_0000;
    if m < 0x8000_0000 then m else m - 0x1_0000_0000
  }

  /** `Util.BitCount(ulong[])`: the population counts of all words, accumulated word by word. */
  method BitCountArray(xArray: array<bv64>) returns (result: int)
    ensures result == Count(xArray[..])
  {
    result := 0;
    for i := 0 to xArray.Length
      invariant result == Count(xArray[..i])
    {
      CountNext(xArray[..], i);
      assert xArray[..][..i + 1] == xArray[..i + 1] && xArray[..][..i] == xArray[..i];
      result := result + BitCount(xArray[i]);
    }
    assert xArray[..xArray.Length] == xArray[..];
  }

  /** `Util.ArrayCopy`: `length` entries of `input` from `iStart` into `output` from `oStart`. */
  method ArrayCopy(input: seq<u16>, iStart: int, output: array<u16>, oStart: int, length: int)
    requires 0 <= iStart && 0 <= length && iStart + length <= |input|
    requires 0 <= oStart && oStart + length <= output.Length
    modifies output
    ensures output[oStart..oStart + length] == input[iStart..iStart + length]
    ensures forall i :: 0 <= i < output.Length && !(oStart <= i < oStart + length) ==> output[i] == old(output[i])
  {
    forall i | oStart <= i < oStart + length {
      output[i] := input[iStart + i - oStart];
    }
  }

  /**
    Writing `v` at `pos` moves it from the pending part of the output to the
    written prefix; the buffer beyond `pos + 1` still holds what it held on entry.
   */
  lemma WriteStep(before: seq<u16>, after: seq<u16>, pos: int, v: u16, rest: seq<int>, whole: seq<int>)
    requires 0 <= pos < |before| == |after|
    requires after == before[pos := v]
    requires before[..pos] + ([v as int] + rest) == whole
    ensures after[..pos + 1] + rest == whole
  {
    assert after[..pos + 1] == before[..pos] + [v];
  }

  /** Writes `v` at `pos`, the next entry of the output `whole`, and moves past it. */
  method Emit(buffer: array<u16>, pos: int, v: u16, ghost rest: seq<int>, ghost whole: seq<int>) returns (next: int)
    requires 0 <= pos <= buffer.Length && |whole| <= buffer.Length
    requires buffer[..pos] + ([v as int] + rest) == whole
    modifies buffer
    ensures next == pos + 1 <= buffer.Length
    ensures buffer[..next] + rest == whole
    ensures forall i :: next <= i < buffer.Length ==> buffer[i] == old(buffer[i])
  {
    ghost var before := buffer[..];
    buffer[pos] := v;
    WriteStep(before, buffer[..], pos, v, rest, whole);
    next := pos + 1;
  }

  /**
    The shared tail of the kernels: copies `set[k..length]` behind the `pos`
    entries already written, which completes the output, and returns its length.
   */
  method CopyRest(src: seq<u16>, k: int, length: int, buffer: array<u16>, pos: int, ghost whole: seq<int>)
    returns (r: int)
    requires 0 <= k <= length <= |src| && 0 <= pos <= buffer.Length
    requires buffer[..pos] + src[k..length] == whole
    requires |whole| <= buffer.Length
    modifies buffer
    ensures r == pos + length - k
    ensures buffer[..r] == whole
    ensures forall i :: r <= i < buffer.Length ==> buffer[i] == old(buffer[i])
  {
    ArrayCopy(src, k, buffer, pos, length - k);
    assert buffer[..pos + length - k] == buffer[..pos] + buffer[pos..pos + length - k];
    r := pos + length - k;
  }

  /** The first entry of a slice, and the slice without it. */
  lemma SliceTail(s: seq<u16>, k: int, n: int)
    requires 0 <= k < n <= |s|
    ensures s[k..n][0] == s[k] && s[k..n][1..] == s[k + 1..n]
  {
  }

  /** One step of the union walk, on the unread parts of the two prefixes. */
  lemma UnionStep(set1: seq<u16>, k1: int, length1: int, set2: seq<u16>, k2: int, length2: int)
    requires 0 <= k1 < length1 <= |set1| && 0 <= k2 < length2 <= |set2|
    ensures set1[k1] < set2[k2] ==>
      Union(set1[k1..length1], set2[k2..length2]) == [set1[k1] as int] + Union(set1[k1 + 1..length1], set2[k2..length2])
    ensures set1[k1] == set2[k2] ==>
      Union(set1[k1..length1], set2[k2..length2]) == [set1[k1] as int] + Union(set1[k1 + 1..length1], set2[k2 + 1..length2])
    ensures set1[k1] > set2[k2] ==>
      Union(set1[k1..length1], set2[k2..length2]) == [set2[k2] as int] + Union(set1[k1..length1], set2[k2 + 1..length2])
  {
    SliceTail(set1, k1, length1);
    SliceTail(set2, k2, length2);
  }

  /**
    `Util.UnionArrays`: writes the two-pointer union of the prefixes
    `set1[..length1]` and `set2[..length2]` to the front of `buffer` and returns
    its length; the rest of `buffer` is left alone.  With one prefix empty the
    other is copied verbatim.
   */
  method UnionArrays(set1: seq<u16>, length1: int, set2: seq<u16>, length2: int, buffer: array<u16>) returns (r: int)
    requires 0 <= length1 <= |set1| && 0 <= length2 <= |set2|
    requires |Union(set1[..length1], set2[..length2])| <= buffer.Length
    modifies buffer
    ensures 0 <= r <= buffer.Length
    ensures buffer[..r] == Union(set1[..length1], set2[..length2])
    ensures forall i :: r <= i < buffer.Length ==> buffer[i] == old(buffer[i])
  {
    ghost var whole := Union(set1[..length1], set2[..length2]);
    var pos := 0;
    var k1, k2 := 0, 0;
    if 0 == length2 {
      r := CopyRest(set1, 0, length1, buffer, 0, whole);
      return;
    }
    if 0 == length1 {
      r := CopyRest(set2, 0, length2, buffer, 0, whole);
      return;
    }
    var s1 := set1[k1];
    var s2 := set2[k2];
    while true
      invariant 0 <= k1 < length1 && 0 <= k2 < length2
      invariant s1 == set1[k1] && s2 == set2[k2]
      invariant 0 <= pos <= buffer.Length
      invariant buffer[..pos] + Union(set1[k1..length1], set2[k2..length2]) == whole
      invariant forall i :: pos <= i < buffer.Length ==> buffer[i] == old(buffer[i])
      decreases length1 - k1 + length2 - k2
    {
      UnionStep(set1, k1, length1, set2, k2, length2);
      var v1: int := s1;
      var v2: int := s2;
      if v1 < v2 {
        pos := Emit(buffer, pos, s1, Union(set1[k1 + 1..length1], set2[k2..length2]), whole);
        k1 := k1 + 1;
        if k1 >= length1 {
          r := CopyRest(set2, k2, length2, buffer, pos, whole);
          return;
        }
        s1 := set1[k1];
      } else if v1 == v2 {
        pos := Emit(buffer, pos, s1, Union(set1[k1 + 1..length1], set2[k2 + 1..length2]), whole);
        k1 := k1 + 1;
        k2 := k2 + 1;
        if k1 >= length1 {
          r := CopyRest(set2, k2, length2, buffer, pos, whole);
          return;
        }
        if k2 >= length2 {
          r := CopyRest(set1, k1, length1, buffer, pos, whole);
          return;
        }
        s1 := set1[k1];
        s2 := set2[k2];
      } else {
        pos := Emit(buffer, pos, s2, Union(set1[k1..length1], set2[k2 + 1..length2]), whole);
        k2 := k2 + 1;
        if k2 >= length2 {
          r := CopyRest(set1, k1, length1, buffer, pos, whole);
          return;
        }
        s2 := set2[k2];
      }
    }
  }

  /** One step of the difference walk, on the unread parts of the two prefixes. */
  lemma DifferenceStep(set1: seq<u16>, k1: int, length1: int, set2: seq<u16>, k2: int, length2: int)
    requires 0 <= k1 < length1 <= |set1| && 0 <= k2 < length2 <= |set2|
    ensures set1[k1] < set2[k2] ==>
      Difference(set1[k1..length1], set2[k2..length2]) == [set1[k1] as int] + Difference(set1[k1 + 1..length1], set2[k2..length2])
    ensures set1[k1] == set2[k2] ==>
      Difference(set1[k1..length1], set2[k2..length2]) == Difference(set1[k1 + 1..length1], set2[k2 + 1..length2])
    ensures set1[k1] > set2[k2] ==>
      Difference(set1[k1..length1], set2[k2..length2]) == Difference(set1[k1..length1], set2[k2 + 1..length2])
  {
    SliceTail(set1, k1, length1);
    SliceTail(set2, k2, length2);
  }

  /**
    `Util.DifferenceArrays`: writes the elements of `set1[..length1]` that the
    two-pointer walk does not find in `set2[..length2]` to the front of
    `buffer` and returns their number; the rest of `buffer` is left alone.
   */
  method DifferenceArrays(set1: seq<u16>, length1: int, set2: seq<u16>, length2: int, buffer: array<u16>) returns (r: int)
    requires 0 <= length1 <= |set1| && 0 <= length2 <= |set2|
    requires |Difference(set1[..length1], set2[..length2])| <= buffer.Length
    modifies buffer
    ensures 0 <= r <= buffer.Length
    ensures buffer[..r] == Difference(set1[..length1], set2[..length2])
    ensures forall i :: r <= i < buffer.Length ==> buffer[i] == old(buffer[i])
  {
    ghost var whole := Difference(set1[..length1], set2[..length2]);
    var pos := 0;
    var k1, k2 := 0, 0;
    if 0 == length2 {
      r := CopyRest(set1, 0, length1, buffer, 0, whole);
      return;
    }
    if 0 == length1 {
      return 0;
    }
    var s1 := set1[k1];
    var s2 := set2[k2];
    while true
      invariant 0 <= k1 < length1 && 0 <= k2 < length2
      invariant s1 == set1[k1] && s2 == set2[k2]
      invariant 0 <= pos <= buffer.Length
      invariant buffer[..pos] + Difference(set1[k1..length1], set2[k2..length2]) == whole
      invariant forall i :: pos <= i < buffer.Length ==> buffer[i] == old(buffer[i])
      decreases length1 - k1 + length2 - k2
    {
      DifferenceStep(set1, k1, length1, set2, k2, length2);
      if s1 < s2 {
        pos := Emit(buffer, pos, s1, Difference(set1[k1 + 1..length1], set2[k2..length2]), whole);
        k1 := k1 + 1;
        if k1 >= length1 {
          break;
        }
        s1 := set1[k1];
      } else if s1 == s2 {
        k1 := k1 + 1;
        k2 := k2 + 1;
        if k1 >= length1 {
          break;
        }
        if k2 >= length2 {
          r := CopyRest(set1, k1, length1, buffer, pos, whole);
          return;
        }
        s1 := set1[k1];
        s2 := set2[k2];
      } else {
        k2 := k2 + 1;
        if k2 >= length2 {
          r := CopyRest(set1, k1, length1, buffer, pos, whole);
          return;
        }
        s2 := set2[k2];
      }
    }
    return pos;
  }

  /** One step of the symmetric-difference walk, on the unread parts of the two prefixes. */
  lemma SymDiffStep(set1: seq<u16>, k1: int, length1: int, set2: seq<u16>, k2: int, length2: int)
    requires 0 <= k1 < length1 <= |set1| && 0 <= k2 < length2 <= |set2|
    ensures set1[k1] < set2[k2] ==>
      SymDiff(set1[k1..length1], set2[k2..length2]) == [set1[k1] as int] + SymDiff(set1[k1 + 1..length1], set2[k2..length2])
    ensures set1[k1] == set2[k2] ==>
      SymDiff(set1[k1..length1], set2[k2..length2]) == SymDiff(set1[k1 + 1..length1], set2[k2 + 1..length2])
    ensures set1[k1] > set2[k2] ==>
      SymDiff(set1[k1..length1], set2[k2..length2]) == [set2[k2] as int] + SymDiff(set1[k1..length1], set2[k2 + 1..length2])
  {
    SliceTail(set1, k1, length1);
    SliceTail(set2, k2, length2);
  }

  /**
    `Util.XorArrays`: writes the two-pointer symmetric difference of the
    prefixes to the front of `buffer` and returns its length; the rest of
    `buffer` is left alone.
   */
  method XorArrays(set1: seq<u16>, length1: int, set2: seq<u16>, length2: int, buffer: array<u16>) returns (r: int)
    requires 0 <= length1 <= |set1| && 0 <= length2 <= |set2|
    requires |SymDiff(set1[..length1], set2[..length2])| <= buffer.Length
    modifies buffer
    ensures 0 <= r <= buffer.Length
    ensures buffer[..r] == SymDiff(set1[..length1], set2[..length2])
    ensures forall i :: r <= i < buffer.Length ==> buffer[i] == old(buffer[i])
  {
    ghost var whole := SymDiff(set1[..length1], set2[..length2]);
    var pos := 0;
    var k1, k2 := 0, 0;
    if 0 == length2 {
      r := CopyRest(set1, 0, length1, buffer, 0, whole);
      return;
    }
    if 0 == length1 {
      r := CopyRest(set2, 0, length2, buffer, 0, whole);
      return;
    }
    var s1 := set1[k1];
    var s2 := set2[k2];
    while true
      invariant 0 <= k1 < length1 && 0 <= k2 < length2
      invariant s1 == set1[k1] && s2 == set2[k2]
      invariant 0 <= pos <= buffer.Length
      invariant buffer[..pos] + SymDiff(set1[k1..length1], set2[k2..length2]) == whole
      invariant forall i :: pos <= i < buffer.Length ==> buffer[i] == old(buffer[i])
      decreases length1 - k1 + length2 - k2
    {
      SymDiffStep(set1, k1, length1, set2, k2, length2);
      if s1 < s2 {
        pos := Emit(buffer, pos, s1, SymDiff(set1[k1 + 1..length1], set2[k2..length2]), whole);
        k1 := k1 + 1;
        if k1 >= length1 {
          r := CopyRest(set2, k2, length2, buffer, pos, whole);
          return;
        }
        s1 := set1[k1];
      } else if s1 == s2 {
        k1 := k1 + 1;
        k2 := k2 + 1;
        if k1 >= length1 {
          r := CopyRest(set2, k2, length2, buffer, pos, whole);
          return;
        }
        if k2 >= length2 {
          r := CopyRest(set1, k1, length1, buffer, pos, whole);
          return;
        }
        s1 := set1[k1];
        s2 := set2[k2];
      } else {
        pos := Emit(buffer, pos, s2, SymDiff(set1[k1..length1], set2[k2 + 1..length2]), whole);
        k2 := k2 + 1;
        if k2 >= length2 {
          r := CopyRest(set1, k1, length1, buffer, pos, whole);
          return;
        }
        s2 := set2[k2];
      }
    }
  }

  /** One step of the intersection walk, on the unread parts of the two prefixes. */
  lemma IntersectStep(set1: seq<u16>, k1: int, length1: int, set2: seq<u16>, k2: int, length2: int)
    requires 0 <= k1 < length1 <= |set1| && 0 <= k2 < length2 <= |set2|
    ensures set1[k1] < set2[k2] ==>
      Intersect(set1[k1..length1], set2[k2..length2]) == Intersect(set1[k1 + 1..length1], set2[k2..length2])
    ensures set1[k1] == set2[k2] ==>
      Intersect(set1[k1..length1], set2[k2..length2]) == [set1[k1] as int] + Intersect(set1[k1 + 1..length1], set2[k2 + 1..length2])
    ensures set1[k1] > set2[k2] ==>
      Intersect(set1[k1..length1], set2[k2..length2]) == Intersect(set1[k1..length1], set2[k2 + 1..length2])
  {
    SliceTail(set1, k1, length1);
    SliceTail(set2, k2, length2);
  }

  /** Nothing is common with an exhausted side. */
  lemma IntersectEnd(set1: seq<u16>, k1: int, length1: int, set2: seq<u16>, k2: int, length2: int)
    requires 0 <= k1 <= length1 <= |set1| && 0 <= k2 <= length2 <= |set2|
    requires k1 == length1 || k2 == length2
    ensures Intersect(set1[k1..length1], set2[k2..length2]) == []
  {
  }

  /**
    `Util.LocalIntersect2By2`: the plain two-pointer intersection.  It writes
    the common elements of the prefixes, as the walk meets them, to the front
    of `buffer` and returns their number; the rest of `buffer` is left alone.
   */
  method LocalIntersect2By2(set1: seq<u16>, length1: int, set2: seq<u16>, length2: int, buffer: array<u16>) returns (r: int)
    requires 0 <= length1 <= |set1| && 0 <= length2 <= |set2|
    requires |Intersect(set1[..length1], set2[..length2])| <= buffer.Length
    modifies buffer
    ensures 0 <= r <= buffer.Length
    ensures buffer[..r] == Intersect(set1[..length1], set2[..length2])
    ensures forall i :: r <= i < buffer.Length ==> buffer[i] == old(buffer[i])
  {
    ghost var whole := Intersect(set1[..length1], set2[..length2]);
    if (0 == length1) || (0 == length2) {
      return 0;
    }
    var k1 := 0;
    var k2 := 0;
    var pos := 0;
    var s1 := set1[k1];
    var s2 := set2[k2];
    while true
      invariant 0 <= k1 < length1 && 0 <= k2 < length2
      invariant s1 == set1[k1] && s2 == set2[k2]
      invariant 0 <= pos <= buffer.Length
      invariant buffer[..pos] + Intersect(set1[k1..length1], set2[k2..length2]) == whole
      invariant forall i :: pos <= i < buffer.Length ==> buffer[i] == old(buffer[i])
      decreases length1 - k1 + length2 - k2
    {
      var v1: int := s1;
      var v2: int := s2;
      ghost var k1Start, k2Start := k1, k2;
      if v2 < v1 {
        while true
          invariant k2Start <= k2 < length2 && s2 == set2[k2] && v2 == s2 as int && v2 < v1
          invariant 0 <= pos <= buffer.Length
          invariant forall i :: pos <= i < buffer.Length ==> buffer[i] == old(buffer[i])
          invariant buffer[..pos] + Intersect(set1[k1..length1], set2[k2..length2]) == whole
          decreases length2 - k2
        {
          IntersectStep(set1, k1, length1, set2, k2, length2);
          k2 := k2 + 1;
          if k2 == length2 {
            IntersectEnd(set1, k1, length1, set2, k2, length2);
            return pos;
          }
          s2 := set2[k2];
          v2 := s2;
          if !(v2 < v1) {
            break;
          }
        }
      }
      if v1 < v2 {
        while true
          invariant k1Start <= k1 < length1 && s1 == set1[k1] && v1 == s1 as int && v1 < v2
          invariant 0 <= pos <= buffer.Length
          invariant forall i :: pos <= i < buffer.Length ==> buffer[i] == old(buffer[i])
          invariant buffer[..pos] + Intersect(set1[k1..length1], set2[k2..length2]) == whole
          decreases length1 - k1
        {
          IntersectStep(set1, k1, length1, set2, k2, length2);
          k1 := k1 + 1;
          if k1 == length1 {
            IntersectEnd(set1, k1, length1, set2, k2, length2);
            return pos;
          }
          s1 := set1[k1];
          v1 := s1;
          if !(v1 < v2) {
            break;
          }
        }
      } else {
        IntersectStep(set1, k1, length1, set2, k2, length2);
        pos := Emit(buffer, pos, s1, Intersect(set1[k1 + 1..length1], set2[k2 + 1..length2]), whole);
        k1 := k1 + 1;
        if k1 == length1 {
          IntersectEnd(set1, k1, length1, set2, k2 + 1, length2);
          break;
        }
        k2 := k2 + 1;
        if k2 == length2 {
          IntersectEnd(set1, k1, length1, set2, k2, length2);
          break;
        }
        s1 := set1[k1];
        s2 := set2[k2];
      }
    }
    return pos;
  }

  /** The entries `a[lo]` to `a[hi]`, both included, strictly increase. */
  ghost predicate SortedSpan(a: seq<u16>, lo: int, hi: int)
  {
    forall i, j :: 0 <= lo <= i < j <= hi < |a| ==> a[i] < a[j]
  }

  /** A strictly increasing prefix is sorted on every span inside it. */
  lemma IncreasingSpan(a: seq<u16>, n: int, lo: int)
    requires 0 <= n <= |a|
    ensures Increasing(a[..n]) ==> SortedSpan(a, lo, n - 1)
  {
    if Increasing(a[..n]) {
      forall i, j | 0 <= lo <= i < j <= n - 1 < |a|
        ensures a[i] < a[j]
      {
        assert a[..n][i] == a[i] && a[..n][j] == a[j];
      }
    }
  }

  /**
    The loop of the framework's `Array.BinarySearch` on `a[lo]..a[hi]`: the
    index of `value` when the probe meets it, otherwise `~lo` (that is
    `-lo - 1`) for the final lower bound.  On a sorted span a negative result
    encodes the insertion point: everything before it is smaller than
    `value`, everything from it on is larger.
   */
  function SearchSpan(a: seq<u16>, lo: int, hi: int, value: int): (r: int)
    requires 0 <= lo <= hi + 1 <= |a|
    ensures r >= 0 ==> lo <= r <= hi && a[r] == value
    ensures r < 0 ==> lo <= -r - 1 <= hi + 1
    ensures r < 0 && SortedSpan(a, lo, hi) ==>
      (forall i :: lo <= i < -r - 1 ==> a[i] < value) && (forall i :: -r - 1 <= i <= hi ==> a[i] > value)
    decreases hi - lo
  {
    if lo > hi then -lo - 1
    else
      var i := lo + (hi - lo) / 2;
      if a[i] == value then i
      else if a[i] < value then SearchSpan(a, i + 1, hi, value)
      else SearchSpan(a, lo, i - 1, value)
  }

  /** `Array.BinarySearch(array, index, length, value)`: searches `array[index..index + length]`. */
  function BinarySearch(entries: seq<u16>, index: int, length: int, value: int): (r: int)
    requires 0 <= index && 0 <= length && index + length <= |entries|
    ensures r >= 0 ==> index <= r < index + length && entries[r] == value
    ensures r < 0 ==> index <= -r - 1 <= index + length
    ensures r < 0 && SortedSpan(entries, index, index + length - 1) ==>
      (forall i :: index <= i < -r - 1 ==> entries[i] < value) && (forall i :: -r - 1 <= i < index + length ==> entries[i] > value)
  {
    SearchSpan(entries, index, index + length - 1, value)
  }

  /**
    `Util.AdvanceUntil`: the first index after `pos` whose entry is at least
    `min`, or `length` when there is none.  The next entry is checked first;
    otherwise the rest is binary searched.  On a sorted prefix every entry it
    skips is smaller than `min`.
   */
  function AdvanceUntil(entries: seq<u16>, pos: int, length: int, min: u16): (r: int)
    requires -1 <= pos && length <= |entries|
    ensures pos + 1 >= length ==> r == pos + 1
    ensures pos < length ==> pos + 1 <= r <= length
    ensures SortedSpan(entries, pos + 1, length - 1) ==>
      (forall i :: pos < i < r ==> entries[i] < min) && (r < length ==> entries[r] >= min)
  {
    var start := pos + 1;
    if (start >= length) || (entries[start] >= min) then start
    else
      var result := BinarySearch(entries, start, length - start, min);
      if result < 0 then -result - 1 else result
  }

  /** Skipping entries of the large side that are below the small side's current value loses nothing. */
  lemma GallopSkip(small: seq<u16>, k2: int, smallLength: int, large: seq<u16>, from: int, to: int, largeLength: int)
    requires 0 <= k2 < smallLength <= |small| && 0 <= from <= to <= largeLength <= |large|
    requires forall i :: from <= i < to ==> large[i] < small[k2]
    ensures Intersect(small[k2..smallLength], large[from..largeLength]) == Intersect(small[k2..smallLength], large[to..largeLength])
  {
    var a := small[k2..smallLength];
    var b := large[from..largeLength];
    forall i | 0 <= i < to - from
      ensures b[i] < a[0]
    {
      assert b[i] == large[from + i];
    }
    IntersectSkip(a, b, to - from);
    assert b[to - from..] == large[to..largeLength];
  }

  /**
    One gallop of the large side from `pos`: the entries `AdvanceUntil` skips
    (together with the one at `from`, when that is below the small value too)
    drop out of the intersection, and it stops at an entry not below the
    small value, or at the end.
   */
  lemma Gallop(small: seq<u16>, k2: int, smallLength: int, large: seq<u16>, from: int, pos: int, largeLength: int)
    requires 0 <= k2 < smallLength <= |small| && pos <= from <= pos + 1 && from <= largeLength <= |large| && 0 <= pos < largeLength
    requires Increasing(large[..largeLength])
    requires from == pos ==> large[pos] < small[k2]
    ensures pos + 1 <= AdvanceUntil(large, pos, largeLength, small[k2]) <= largeLength
    ensures Intersect(small[k2..smallLength], large[from..largeLength])
         == Intersect(small[k2..smallLength], large[AdvanceUntil(large, pos, largeLength, small[k2])..largeLength])
    ensures AdvanceUntil(large, pos, largeLength, small[k2]) < largeLength ==>
      large[AdvanceUntil(large, pos, largeLength, small[k2])] >= small[k2]
  {
    IncreasingSpan(large, largeLength, pos + 1);
    var next := AdvanceUntil(large, pos, largeLength, small[k2]);
    forall i | from <= i < next
      ensures large[i] < small[k2]
    {
      if i == pos {
        assert from == pos && large[pos] < small[k2];
      }
    }
    GallopSkip(small, k2, smallLength, large, from, next, largeLength);
  }

  /** The large side's next position, `AdvanceUntil(large, pos, largeLength, small[k2])`, with what `Gallop` proves about it. */
  method Advance(small: seq<u16>, k2: int, smallLength: int, large: seq<u16>, from: int, pos: int, largeLength: int) returns (next: int)
    requires 0 <= k2 < smallLength <= |small| && pos <= from <= pos + 1 && from <= largeLength <= |large| && 0 <= pos < largeLength
    requires Increasing(large[..largeLength])
    requires from == pos ==> large[pos] < small[k2]
    ensures pos + 1 <= next <= largeLength
    ensures Intersect(small[k2..smallLength], large[from..largeLength]) == Intersect(small[k2..smallLength], large[next..largeLength])
    ensures next < largeLength ==> large[next] >= small[k2]
  {
    Gallop(small, k2, smallLength, large, from, pos, largeLength);
    next := AdvanceUntil(large, pos, largeLength, small[k2]);
  }

  /**
    `Util.OneSidedGallopingIntersect2By2`, for a small set against a much
    larger sorted one: each element of the small prefix is looked up by
    galloping forward in the large prefix.  The common elements are written
    to the front of `buffer` in the order of the plain walk and their number
    is returned.

    This is the corrected version: it returns 0 when either prefix is empty.
    The code as written only checks the small side and then reads the first
    entry of the large side; `GallopingAsWritten` below models that.
   */
  method OneSidedGallopingIntersect2By2(smallSet: seq<u16>, smallLength: int, largeSet: seq<u16>, largeLength: int, buffer: array<u16>)
    returns (r: int)
    requires 0 <= smallLength <= |smallSet| && 0 <= largeLength <= |largeSet|
    requires Increasing(largeSet[..largeLength])
    requires |Intersect(smallSet[..smallLength], largeSet[..largeLength])| <= buffer.Length
    modifies buffer
    ensures 0 <= r <= buffer.Length
    ensures buffer[..r] == Intersect(smallSet[..smallLength], largeSet[..largeLength])
    ensures forall i :: r <= i < buffer.Length ==> buffer[i] == old(buffer[i])
  {
    ghost var whole := Intersect(smallSet[..smallLength], largeSet[..largeLength]);
    if (0 == smallLength) || (0 == largeLength) {
      return 0;
    }
    var k1 := 0;
    var k2 := 0;
    var pos := 0;
    var s1 := largeSet[k1];
    var s2 := smallSet[k2];
    while true
      invariant 0 <= k1 < largeLength && 0 <= k2 < smallLength
      invariant s1 == largeSet[k1] && s2 == smallSet[k2]
      invariant 0 <= pos <= buffer.Length
      invariant buffer[..pos] + Intersect(smallSet[k2..smallLength], largeSet[k1..largeLength]) == whole
      invariant forall i :: pos <= i < buffer.Length ==> buffer[i] == old(buffer[i])
      decreases smallLength - k2
    {
      if s1 < s2 {
        k1 := Advance(smallSet, k2, smallLength, largeSet, k1, k1, largeLength);
        if k1 == largeLength {
          IntersectEnd(smallSet, k2, smallLength, largeSet, k1, largeLength);
          break;
        }
        s1 := largeSet[k1];
      }
      if s2 < s1 {
        IntersectStep(smallSet, k2, smallLength, largeSet, k1, largeLength);
        k2 := k2 + 1;
        if k2 == smallLength {
          IntersectEnd(smallSet, k2, smallLength, largeSet, k1, largeLength);
          break;
        }
        s2 := smallSet[k2];
      } else {
        IntersectStep(smallSet, k2, smallLength, largeSet, k1, largeLength);
        pos := Emit(buffer, pos, s2, Intersect(smallSet[k2 + 1..smallLength], largeSet[k1 + 1..largeLength]), whole);
        k2 := k2 + 1;
        if k2 == smallLength {
          IntersectEnd(smallSet, k2, smallLength, largeSet, k1 + 1, largeLength);
          break;
        }
        s2 := smallSet[k2];
        k1 := Advance(smallSet, k2, smallLength, largeSet, k1 + 1, k1, largeLength);
        if k1 == largeLength {
          IntersectEnd(smallSet, k2, smallLength, largeSet, k1, largeLength);
          break;
        }
        s1 := largeSet[k1];
      }
    }
    return pos;
  }

  /**
    `Util.IntersectArrays`: gallops when one array is more than 64 times
    longer than the other (`Length << 6`, a 32-bit shift, compares the whole
    arrays, not the prefixes), otherwise walks both.  Every path writes the
    same intersection of the two sorted prefixes.
   */
  method IntersectArrays(set1: seq<u16>, length1: int, set2: seq<u16>, length2: int, buffer: array<u16>) returns (r: int)
    requires 0 <= length1 <= |set1| && 0 <= length2 <= |set2|
    requires Increasing(set1[..length1]) && Increasing(set2[..length2])
    requires |Intersect(set1[..length1], set2[..length2])| <= buffer.Length
    modifies buffer
    ensures 0 <= r <= buffer.Length
    ensures buffer[..r] == Intersect(set1[..length1], set2[..length2])
    ensures forall i :: r <= i < buffer.Length ==> buffer[i] == old(buffer[i])
  {
    if ToInt32(|set1| * 64) < |set2| {
      r := OneSidedGallopingIntersect2By2(set1, length1, set2, length2, buffer);
      return;
    }
    if ToInt32(|set2| * 64) < |set1| {
      IntersectComm(set1[..length1], set2[..length2]);
      r := OneSidedGallopingIntersect2By2(set2, length2, set1, length1, buffer);
      return;
    }
    r := LocalIntersect2By2(set1, length1, set2, length2, buffer);
  }

  /** `Util.HighBits`: `(ushort)(value >> 16)`, an arithmetic shift then truncation to 16 bits. */
  function HighBits(value: i32): u16
  {
    (value / 0x1_0000) % 0x1_0000
  }

  /** `Util.LowBits`: `(ushort)(value & 0xFFFF)`, the low 16 bits of the two's-complement value. */
  function LowBits(value: i32): u16
  {
    value % 0x1_0000
  }

  /**
    The value the enumerators of RoaringBitmap/RoaringArray.cs yield for a
    low part in the container of a key: `(key << 16) | low`, computed in
    32-bit signed arithmetic.
   */
  function Join(key: u16, low: u16): i32
  {
    ToInt32(key as int * 0x1_0000 + low as int)
  }

  /** Splitting a joined value gives back the key and the low part. */
  lemma SplitJoin(key: u16, low: u16)
    ensures HighBits(Join(key, low)) == key && LowBits(Join(key, low)) == low
  {
    var x := key as int * 0x1_0000 + low as int;
    var v := Join(key, low);
    if x < 0x8000_0000 {
      assert v == x;
    } else {
      assert v == (key as int - 0x1_0000) * 0x1_0000 + low as int;
    }
  }

  /** Every 32-bit value is the join of its high and low bits. */
  lemma JoinSplit(value: i32)
    ensures Join(HighBits(value), LowBits(value)) == value
  {
    var q := value / 0x1_0000;
    assert value == q * 0x1_0000 + LowBits(value);
    if q < 0 {
      assert HighBits(value) == q + 0x1_0000;
    }
  }

  /** Different key or low part, different value: the join is one to one. */
  lemma JoinInjective(k1: u16, l1: u16, k2: u16, l2: u16)
    ensures Join(k1, l1) == Join(k2, l2) <==> k1 == k2 && l1 == l2
  {
    SplitJoin(k1, l1);
    SplitJoin(k2, l2);
  }

  /**
    One pass of the loop of `OneSidedGallopingIntersect2By2` exactly as the
    code is written, with `out` the values written to the buffer so far.
    `None` is the run-time error of the framework: an index outside the
    large array (`large` is the whole array, slack included) or outside the
    buffer of `capacity` entries.
   */
  function GallopFrom(small: seq<u16>, smallLength: int, large: seq<u16>, largeLength: int, capacity: nat,
                      k1: int, k2: int, out: seq<int>): Option<seq<int>>
    requires 0 <= k2 < smallLength <= |small| && 0 <= k1 < |large| && largeLength <= |large|
    decreases smallLength - k2
  {
    var s2 := small[k2];
    var s1 := large[k1];
    var k1' := if s1 < s2 then AdvanceUntil(large, k1, largeLength, s2) else k1;
    if s1 < s2 && k1' == largeLength then Some(out)
    else if k1' >= |large| then None
    else if s2 < large[k1'] then
      if k2 + 1 == smallLength then Some(out)
      else GallopFrom(small, smallLength, large, largeLength, capacity, k1', k2 + 1, out)
    else if |out| >= capacity then None
    else if k2 + 1 == smallLength then Some(out + [s2 as int])
    else
      var k1'' := AdvanceUntil(large, k1', largeLength, small[k2 + 1]);
      if k1'' == largeLength then Some(out + [s2 as int])
      else if k1'' >= |large| then None
      else GallopFrom(small, smallLength, large, largeLength, capacity, k1'', k2 + 1, out + [s2 as int])
  }

  /**
    `OneSidedGallopingIntersect2By2` as written: only an empty small prefix
    returns at once; otherwise the first entry of the large array is read
    even when the large prefix is empty.
   */
  function GallopingAsWritten(small: seq<u16>, smallLength: int, large: seq<u16>, largeLength: int, capacity: nat): Option<seq<int>>
    requires 0 <= smallLength <= |small| && 0 <= largeLength <= |large|
  {
    if 0 == smallLength then Some([])
    else if |large| == 0 then None
    else GallopFrom(small, smallLength, large, largeLength, capacity, 0, 0, [])
  }

  /**
    An empty large prefix inside a 200-entry array against three small
    values: with a buffer sized for the intersection (which is empty) the
    code as written writes out of range, and with room for three it reports
    all three small values as common.
   */
  lemma GallopingEmptyLargeSide()
    ensures Intersect([1, 2, 3], []) == []
    ensures GallopingAsWritten([1, 2, 3], 3, seq(200, _ => 0), 0, 0) == None
    ensures GallopingAsWritten([1, 2, 3], 3, seq(200, _ => 0), 0, 3) == Some([1, 2, 3])
  {
    var small: seq<u16> := [1, 2, 3];
    var large: seq<u16> := seq(200, _ => 0);
    assert GallopFrom(small, 3, large, 0, 3, 4, 2, [1, 2]) == Some([1, 2] + [3]);
    assert [1, 2] + [3] == [1, 2, 3];
    assert GallopFrom(small, 3, large, 0, 3, 2, 1, [1]) == GallopFrom(small, 3, large, 0, 3, 4, 2, [1] + [2]);
    assert [1] + [2] == [1, 2];
    assert GallopFrom(small, 3, large, 0, 3, 0, 0, []) == GallopFrom(small, 3, large, 0, 3, 2, 1, [] + [1]);
    assert [] + [1] == [1];
    assert GallopFrom(small, 3, large, 0, 3, 0, 0, []) == Some([1, 2, 3]);
  }
}
