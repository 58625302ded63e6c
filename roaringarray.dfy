/**
  RoaringBitmap/RoaringArray.cs: the two-level index.  It keeps the keys
  (the high 16 bits) in `m_Keys`, the container of each key's low 16 bits at
  the same position in `m_Values`, their number in `m_Size` and the summed
  container cardinalities in `m_Cardinality`.  All fields are read-only after
  construction, so an index is a value.

  The operators walk the two key arrays as the kernels of Util.cs walk
  values, appending `(key, container)` pairs to a list that the constructor
  then copies.  Each walk is a method with its loop; the function it is
  proved against is the recursive walk over the list of pairs, and the lemmas
  below say which keys and which members the result has.
 */
module RoaringArrays {
  import opened Sorted
  import opened Words
  import opened Util
  import opened Containers
  import BitmapContainers
  import ContainerDispatch

  /** A `Tuple<ushort, Container>` of the lists the operators build. */
  datatype Entry = Entry(key: u16, container: Container)

  datatype RoaringArray = RoaringArray(keys: seq<u16>, size: int, values: seq<Container>, cardinality: i32)

  /** The keys of a list of pairs. */
  function Keys(e: seq<Entry>): (ks: seq<int>)
    ensures |ks| == |e| && forall i :: 0 <= i < |e| ==> ks[i] == e[i].key as int
  {
    seq(|e|, i requires 0 <= i < |e| => e[i].key as int)
  }

  /** Every container of the list is valid. */
  predicate AllValid(e: seq<Entry>)
  {
    forall i :: 0 <= i < |e| ==> Valid(e[i].container)
  }

  /** A list of pairs as an index keeps it: valid containers under strictly increasing keys. */
  predicate Sound(e: seq<Entry>)
  {
    AllValid(e) && Increasing(Keys(e))
  }

  /** The pairs of an index, position by position. */
  function Entries(ra: RoaringArray): (e: seq<Entry>)
    requires |ra.keys| == |ra.values|
    ensures |e| == |ra.keys| && forall i :: 0 <= i < |e| ==> e[i] == Entry(ra.keys[i], ra.values[i])
  {
    seq(|ra.keys|, i requires 0 <= i < |ra.keys| => Entry(ra.keys[i], ra.values[i]))
  }

  /** The sum of the cached container cardinalities, in unbounded arithmetic. */
  function Total(e: seq<Entry>): int
  {
    if |e| == 0 then 0 else Total(e[..|e| - 1]) + e[|e| - 1].container.cardinality
  }

  /** What the constructor makes of a list: its pairs, its length, and the cardinality summed in C# `int`. */
  predicate Holds(ra: RoaringArray, e: seq<Entry>)
  {
    ra.size == |ra.keys| == |ra.values| == |e| && Entries(ra) == e && ra.cardinality == ToInt32(Total(e))
  }

  /** An index as the library builds it: sound pairs, counted as the constructor counts them. */
  predicate ValidArray(ra: RoaringArray)
  {
    |ra.keys| == |ra.values| && Holds(ra, Entries(ra)) && Sound(Entries(ra))
  }

  /** A list that may be `null`: the list `list.Add` builds is `null` until the first pair. */
  function Listed(list: Option<seq<Entry>>): seq<Entry>
  {
    if list.Some? then list.value else []
  }

  /**
    The constructor `RoaringArray(List<Tuple<ushort, Container>>)`: copies
    keys and containers, adding up the cardinalities in C# `int` arithmetic.
    A missing list gives the empty index.
   */
  method New(containers: Option<seq<Entry>>) returns (ra: RoaringArray)
    ensures Holds(ra, Listed(containers))
  {
    var list := Listed(containers);
    var size := |list|;
    var keys := new u16[size](_ => 0);
    var values := new Container[size](_ => ArrayContainer(0, []));
    var cardinality: i32 := 0;
    for i := 0 to size
      invariant forall j :: 0 <= j < i ==> keys[j] == list[j].key && values[j] == list[j].container
      invariant cardinality == ToInt32(Total(list[..i]))
    {
      keys[i] := list[i].key;
      values[i] := list[i].container;
      TotalStep(list, i, cardinality);
      cardinality := ToInt32(cardinality + values[i].cardinality);
    }
    ra := RoaringArray(keys[..], size, values[..], cardinality);
    Built(list, ra);
  }

  /** Adding the next cardinality to the wrapped partial sum wraps the next partial sum. */
  lemma TotalStep(list: seq<Entry>, i: int, cardinality: int)
    requires 0 <= i < |list| && cardinality == ToInt32(Total(list[..i]))
    ensures ToInt32(cardinality + list[i].container.cardinality) == ToInt32(Total(list[..i + 1]))
  {
    assert list[..i + 1][..i] == list[..i];
    ToInt32Add(Total(list[..i]), list[i].container.cardinality);
  }

  /** Arrays that hold the keys and containers of a list, with its wrapped total, make an index that holds the list. */
  lemma Built(list: seq<Entry>, ra: RoaringArray)
    requires ra.size == |ra.keys| == |ra.values| == |list|
    requires forall j :: 0 <= j < |list| ==> ra.keys[j] == list[j].key && ra.values[j] == list[j].container
    requires ra.cardinality == ToInt32(Total(list[..|list|]))
    ensures Holds(ra, list)
  {
    assert list[..|list|] == list;
    assert Entries(ra) == list;
  }

  /** An index built from a sound list is a valid index. */
  lemma HoldsValid(ra: RoaringArray, e: seq<Entry>)
    requires Holds(ra, e) && Sound(e)
    ensures ValidArray(ra)
  {
  }

  /** The key array of a valid index is sorted. */
  lemma KeysSorted(ra: RoaringArray, lo: int)
    requires ValidArray(ra)
    ensures SortedSpan(ra.keys, lo, |ra.keys| - 1)
  {
    var ks := Keys(Entries(ra));
    forall i, j | 0 <= lo <= i < j <= |ra.keys| - 1 < |ra.keys|
      ensures ra.keys[i] < ra.keys[j]
    {
      assert ks[i] == ra.keys[i] as int && ks[j] == ra.keys[j] as int;
    }
  }

  /** Wrapping a partial sum first does not change the wrapped total. */
  lemma ToInt32Add(a: int, b: int)
    ensures ToInt32(ToInt32(a) + b) == ToInt32(a + b)
  {
    var r := ToInt32(a);
    assert (r - a) % 0x1_0000_0000 == 0;
    ToInt32Congruent(r + b, a + b);
  }

  /** Values that agree modulo `2^32` wrap to the same C# `int`. */
  lemma ToInt32Congruent(x: int, y: int)
    requires (x - y) % 0x1_0000_0000 == 0
    ensures ToInt32(x) == ToInt32(y)
  {
    var q := (x - y) / 0x1_0000_0000;
    assert x == y + q * 0x1_0000_0000;
    assert x % 0x1_0000_0000 == y % 0x1_0000_0000;
  }

  // ---------------------------------------------------------------------
  // Looking up a key

  /** The container stored under `key`, found by a front-to-back scan. */
  function Find(e: seq<Entry>, key: int): (r: Option<Container>)
    ensures r.Some? ==> 0 <= key < MaxCapacity
    ensures r.Some? && AllValid(e) ==> Valid(r.value)
  {
    if |e| == 0 then None
    else if e[0].key as int == key then Some(e[0].container)
    else Find(e[1..], key)
  }

  /** `low` belongs to the container stored under `key`: the pair `(key, low)` is a member of the index. */
  predicate Has(e: seq<Entry>, key: int, low: int)
    requires AllValid(e)
  {
    var found := Find(e, key);
    found.Some? && low in Elements(found.value)
  }

  /** The keys of a sound list are its first key followed by the keys of the rest. */
  lemma KeysTail(e: seq<Entry>)
    requires |e| > 0
    ensures Keys(e[1..]) == Keys(e)[1..] && Keys(e) == [e[0].key as int] + Keys(e[1..])
  {
  }

  /** A key that is not stored is not found. */
  lemma {:induction false} FindAbsent(e: seq<Entry>, key: int)
    requires key !in Keys(e)
    ensures Find(e, key) == None
  {
    if |e| > 0 {
      KeysTail(e);
      FindAbsent(e[1..], key);
    }
  }

  /** Under strictly increasing keys, the scan finds the container at the key's own position. */
  lemma {:induction false} FindAt(e: seq<Entry>, i: int)
    requires Increasing(Keys(e)) && 0 <= i < |e|
    ensures Find(e, e[i].key as int) == Some(e[i].container)
  {
    if i > 0 {
      KeysTail(e);
      IncreasingTail(Keys(e));
      assert Keys(e)[0] < Keys(e)[i];
      FindAt(e[1..], i - 1);
    }
  }

  /** A key below the first key of a sound list is not stored in it. */
  lemma FindBelow(e: seq<Entry>, key: int)
    requires Increasing(Keys(e)) && |e| > 0 && key < e[0].key as int
    ensures Find(e, key) == None
  {
    FindAbsent(e, key);
  }

  /** Looking up in a concatenation: the front first. */
  lemma {:induction false} FindAppend(a: seq<Entry>, b: seq<Entry>, key: int)
    ensures Find(a + b, key) == if Find(a, key).Some? then Find(a, key) else Find(b, key)
  {
    if |a| > 0 {
      assert (a + b)[1..] == a[1..] + b;
      FindAppend(a[1..], b, key);
    } else {
      assert a + b == b;
    }
  }

  /** The key array of an index, read as integers, is the key list of its pairs. */
  lemma KeysOf(ra: RoaringArray)
    requires |ra.keys| == |ra.values|
    ensures Keys(Entries(ra)) == seq(|ra.keys|, i requires 0 <= i < |ra.keys| => ra.keys[i] as int)
  {
  }

  /** The keys of a list with one more pair in front. */
  lemma KeysCons(en: Entry, e: seq<Entry>)
    ensures Keys([en] + e) == [en.key as int] + Keys(e)
  {
  }

  /** A sound list stays sound without its first pair. */
  lemma SoundTail(e: seq<Entry>)
    requires Sound(e) && |e| > 0
    ensures Sound(e[1..]) && forall k :: k in Keys(e[1..]) ==> e[0].key as int < k
  {
    KeysTail(e);
    IncreasingTail(Keys(e));
  }

  // ---------------------------------------------------------------------
  // | and ^: merges that keep every key

  /** The container operator a merge applies to the two containers of a shared key. */
  datatype MergeOp = OrMerge | XorMerge

  function Apply(op: MergeOp, c: Container, d: Container): (r: Container)
    requires Valid(c) && Valid(d)
    ensures Valid(r)
  {
    match op
    case OrMerge => ContainerDispatch.Or(c, d)
    case XorMerge => ContainerDispatch.Xor(c, d)
  }

  /**
    The walk of `|` and `^`: pairs in key order, a key of one side only
    with that side's container, a shared key with the two containers
    combined.
   */
  function Merge(op: MergeOp, a: seq<Entry>, b: seq<Entry>): (r: seq<Entry>)
    requires AllValid(a) && AllValid(b)
    ensures AllValid(r)
    decreases |a| + |b|
  {
    if |a| == 0 then b
    else if |b| == 0 then a
    else if a[0].key == b[0].key then [Entry(a[0].key, Apply(op, a[0].container, b[0].container))] + Merge(op, a[1..], b[1..])
    else if a[0].key < b[0].key then [a[0]] + Merge(op, a[1..], b)
    else [b[0]] + Merge(op, a, b[1..])
  }

  /** One step of the walk from positions `i` and `j`. */
  lemma MergeUnfold(op: MergeOp, a: seq<Entry>, i: int, b: seq<Entry>, j: int)
    requires AllValid(a) && AllValid(b) && 0 <= i < |a| && 0 <= j < |b|
    ensures Merge(op, a[i..], b[j..]) ==
      if a[i].key == b[j].key then [Entry(a[i].key, Apply(op, a[i].container, b[j].container))] + Merge(op, a[i + 1..], b[j + 1..])
      else if a[i].key < b[j].key then [a[i]] + Merge(op, a[i + 1..], b[j..])
      else [b[j]] + Merge(op, a[i..], b[j + 1..])
  {
    assert a[i..][0] == a[i] && a[i..][1..] == a[i + 1..];
    assert b[j..][0] == b[j] && b[j..][1..] == b[j + 1..];
  }

  /** The value a merged key gets: the combination when both sides have it, otherwise the one side's container. */
  function Pick(op: MergeOp, c: Option<Container>, d: Option<Container>): Option<Container>
    requires (c.Some? ==> Valid(c.value)) && (d.Some? ==> Valid(d.value))
  {
    match (c, d)
    case (Some(u), Some(v)) => Some(Apply(op, u, v))
    case (Some(_), None) => c
    case (None, _) => d
  }

  /** The merged keys are the union of the keys. */
  lemma {:induction false} MergeKeys(op: MergeOp, a: seq<Entry>, b: seq<Entry>)
    requires AllValid(a) && AllValid(b)
    ensures Keys(Merge(op, a, b)) == Union(Keys(a), Keys(b))
    decreases |a| + |b|
  {
    if |a| > 0 && |b| > 0 {
      KeysTail(a);
      KeysTail(b);
      if a[0].key == b[0].key {
        MergeKeys(op, a[1..], b[1..]);
        KeysCons(Entry(a[0].key, Apply(op, a[0].container, b[0].container)), Merge(op, a[1..], b[1..]));
      } else if a[0].key < b[0].key {
        MergeKeys(op, a[1..], b);
        KeysCons(a[0], Merge(op, a[1..], b));
      } else {
        MergeKeys(op, a, b[1..]);
        KeysCons(b[0], Merge(op, a, b[1..]));
      }
    }
  }

  /** Looking up a key in the merge: the two sides' containers combined as `Pick` says. */
  lemma {:induction false} MergeFind(op: MergeOp, a: seq<Entry>, b: seq<Entry>, key: int)
    requires Sound(a) && Sound(b)
    ensures Find(Merge(op, a, b), key) == Pick(op, Find(a, key), Find(b, key))
    decreases |a| + |b|
  {
    if |a| > 0 && |b| > 0 {
      SoundTail(a);
      SoundTail(b);
      if a[0].key == b[0].key {
        MergeFind(op, a[1..], b[1..], key);
      } else if a[0].key < b[0].key {
        MergeFind(op, a[1..], b, key);
        if key == a[0].key as int {
          FindBelow(b, key);
        }
      } else {
        MergeFind(op, a, b[1..], key);
        if key == b[0].key as int {
          FindBelow(a, key);
        }
      }
    }
  }

  /** Merging sound lists gives a sound list. */
  lemma MergeSound(op: MergeOp, a: seq<Entry>, b: seq<Entry>)
    requires Sound(a) && Sound(b)
    ensures Sound(Merge(op, a, b))
  {
    MergeKeys(op, a, b);
    UnionSpec(Keys(a), Keys(b));
  }

  /** Merging with an exhausted side leaves the other side as it is. */
  lemma MergeExhausted(op: MergeOp, a: seq<Entry>, b: seq<Entry>)
    requires AllValid(a) && AllValid(b) && (|a| == 0 || |b| == 0)
    ensures Merge(op, a, b) == a + b
  {
  }

  /** Moving the first pair of the pending part onto the emitted part keeps their concatenation. */
  lemma Shift(list: seq<Entry>, en: Entry, rest: seq<Entry>, whole: seq<Entry>)
    requires list + ([en] + rest) == whole
    ensures (list + [en]) + rest == whole
  {
    assert (list + [en]) + rest == list + ([en] + rest);
  }

  /** The same for a piece of any length. */
  lemma ShiftAll(list: seq<Entry>, piece: seq<Entry>, rest: seq<Entry>, whole: seq<Entry>)
    requires list + (piece + rest) == whole
    ensures (list + piece) + rest == whole
  {
    assert (list + piece) + rest == list + (piece + rest);
  }

  /** The empty list is a unit of concatenation. */
  lemma EmptyUnit(list: seq<Entry>)
    ensures list + [] == list && [] + list == list
  {
  }

  /** A suffix from a valid position is its first element followed by the next suffix. */
  lemma SuffixCons(s: seq<Entry>, i: int)
    requires 0 <= i < |s|
    ensures s[i..] == [s[i]] + s[i + 1..]
  {
  }

  /** The invariant of the walk survives each of its three moves. */
  lemma MergeAdvance(op: MergeOp, xs: seq<Entry>, xPos: int, ys: seq<Entry>, yPos: int, list: seq<Entry>, whole: seq<Entry>)
    requires AllValid(xs) && AllValid(ys) && 0 <= xPos < |xs| && 0 <= yPos < |ys|
    requires list + Merge(op, xs[xPos..], ys[yPos..]) == whole
    ensures xs[xPos].key == ys[yPos].key ==>
      (list + [Entry(xs[xPos].key, Apply(op, xs[xPos].container, ys[yPos].container))]) + Merge(op, xs[xPos + 1..], ys[yPos + 1..]) == whole
    ensures xs[xPos].key < ys[yPos].key ==> (list + [xs[xPos]]) + Merge(op, xs[xPos + 1..], ys[yPos..]) == whole
    ensures xs[xPos].key > ys[yPos].key ==> (list + [ys[yPos]]) + Merge(op, xs[xPos..], ys[yPos + 1..]) == whole
  {
    MergeUnfold(op, xs, xPos, ys, yPos);
    var en := Entry(xs[xPos].key, Apply(op, xs[xPos].container, ys[yPos].container));
    if xs[xPos].key == ys[yPos].key {
      Shift(list, en, Merge(op, xs[xPos + 1..], ys[yPos + 1..]), whole);
    } else if xs[xPos].key < ys[yPos].key {
      Shift(list, xs[xPos], Merge(op, xs[xPos + 1..], ys[yPos..]), whole);
    } else {
      Shift(list, ys[yPos], Merge(op, xs[xPos..], ys[yPos + 1..]), whole);
    }
  }

  /** The loop of `operator |` and `operator ^`, which differ only in the container operator. */
  method MergeWalk(op: MergeOp, x: RoaringArray, y: RoaringArray) returns (list: seq<Entry>)
    requires ValidArray(x) && ValidArray(y)
    ensures list == Merge(op, Entries(x), Entries(y))
  {
    ghost var xs := Entries(x);
    ghost var ys := Entries(y);
    ghost var whole := Merge(op, xs, ys);
    var xLength := x.size;
    var yLength := y.size;
    list := [];
    var xPos := 0;
    var yPos := 0;
    if xPos < xLength && yPos < yLength {
      var xKey := x.keys[xPos];
      var yKey := y.keys[yPos];
      while true
        invariant 0 <= xPos < xLength && 0 <= yPos < yLength
        invariant xKey == x.keys[xPos] && yKey == y.keys[yPos]
        invariant list + Merge(op, xs[xPos..], ys[yPos..]) == whole
        decreases xLength - xPos + yLength - yPos
      {
        MergeAdvance(op, xs, xPos, ys, yPos, list, whole);
        if xKey == yKey {
          list := list + [Entry(xKey, Apply(op, x.values[xPos], y.values[yPos]))];
          xPos := xPos + 1;
          yPos := yPos + 1;
          if xPos == xLength || yPos == yLength {
            break;
          }
          xKey := x.keys[xPos];
          yKey := y.keys[yPos];
        } else if xKey < yKey {
          list := list + [Entry(xKey, x.values[xPos])];
          xPos := xPos + 1;
          if xPos == xLength {
            break;
          }
          xKey := x.keys[xPos];
        } else {
          list := list + [Entry(yKey, y.values[yPos])];
          yPos := yPos + 1;
          if yPos == yLength {
            break;
          }
          yKey := y.keys[yPos];
        }
      }
    }
    MergeExhausted(op, xs[xPos..], ys[yPos..]);
    if xPos == xLength {
      list := CopyTail(list, y, yPos);
    } else {
      list := CopyTail(list, x, xPos);
    }
  }

  /** The tail loops of the walk: the pairs of one index from `from` on, appended in order. */
  method CopyTail(list: seq<Entry>, ra: RoaringArray, from: int) returns (out: seq<Entry>)
    requires ValidArray(ra) && 0 <= from <= ra.size
    ensures out == list + Entries(ra)[from..]
  {
    ghost var es := Entries(ra);
    ghost var whole := list + es[from..];
    out := list;
    for i := from to ra.size
      invariant out + es[i..] == whole
    {
      SuffixCons(es, i);
      Shift(out, es[i], es[i + 1..], whole);
      out := out + [Entry(ra.keys[i], ra.values[i])];
    }
  }

  /** `operator |`: the merge of the two indexes with `Container |` on shared keys. */
  method Or(x: RoaringArray, y: RoaringArray) returns (r: RoaringArray)
    requires ValidArray(x) && ValidArray(y)
    ensures Holds(r, Merge(OrMerge, Entries(x), Entries(y))) && ValidArray(r)
  {
    var list := MergeWalk(OrMerge, x, y);
    r := New(Some(list));
    MergeSound(OrMerge, Entries(x), Entries(y));
    HoldsValid(r, list);
  }

  /** `operator ^`: the same merge with `Container ^`, which keeps a shared key even when the xor is empty. */
  method Xor(x: RoaringArray, y: RoaringArray) returns (r: RoaringArray)
    requires ValidArray(x) && ValidArray(y)
    ensures Holds(r, Merge(XorMerge, Entries(x), Entries(y))) && ValidArray(r)
  {
    var list := MergeWalk(XorMerge, x, y);
    r := New(Some(list));
    MergeSound(XorMerge, Entries(x), Entries(y));
    HoldsValid(r, list);
  }

  /** `x | y` holds exactly the members of either index. */
  lemma OrMembers(a: seq<Entry>, b: seq<Entry>, key: int, low: int)
    requires Sound(a) && Sound(b)
    ensures Has(Merge(OrMerge, a, b), key, low) <==> Has(a, key, low) || Has(b, key, low)
  {
    MergeFind(OrMerge, a, b, key);
    var c := Find(a, key);
    var d := Find(b, key);
    if c.Some? && d.Some? {
      ContainerDispatch.OrSpec(c.value, d.value);
      UnionSpec(Elements(c.value), Elements(d.value));
    }
  }

  /** `x ^ y` holds exactly the members of one index only. */
  lemma XorMembers(a: seq<Entry>, b: seq<Entry>, key: int, low: int)
    requires Sound(a) && Sound(b)
    ensures Has(Merge(XorMerge, a, b), key, low) <==> Has(a, key, low) != Has(b, key, low)
  {
    MergeFind(XorMerge, a, b, key);
    var c := Find(a, key);
    var d := Find(b, key);
    if c.Some? && d.Some? {
      ContainerDispatch.XorSpec(c.value, d.value);
      SymDiffSpec(Elements(c.value), Elements(d.value));
    }
  }

  // ---------------------------------------------------------------------
  // &: the walk that keeps the shared keys with a non-empty intersection

  /** The pair a key contributes when its container must be non-empty to be kept. */
  function KeepNonEmpty(key: u16, c: Container): seq<Entry>
  {
    if c.cardinality > 0 then [Entry(key, c)] else []
  }

  /**
    The walk of `&`: a shared key with the intersection of its containers,
    dropped when that is empty; a key of one side only is skipped.
   */
  function Meet(a: seq<Entry>, b: seq<Entry>): (r: seq<Entry>)
    requires AllValid(a) && AllValid(b)
    ensures AllValid(r)
    decreases |a| + |b|
  {
    if |a| == 0 || |b| == 0 then []
    else if a[0].key == b[0].key then KeepNonEmpty(a[0].key, ContainerDispatch.And(a[0].container, b[0].container)) + Meet(a[1..], b[1..])
    else if a[0].key < b[0].key then Meet(a[1..], b)
    else Meet(a, b[1..])
  }

  /** One step of the walk from positions `i` and `j`. */
  lemma MeetUnfold(a: seq<Entry>, i: int, b: seq<Entry>, j: int)
    requires AllValid(a) && AllValid(b) && 0 <= i < |a| && 0 <= j < |b|
    ensures Meet(a[i..], b[j..]) ==
      if a[i].key == b[j].key then KeepNonEmpty(a[i].key, ContainerDispatch.And(a[i].container, b[j].container)) + Meet(a[i + 1..], b[j + 1..])
      else if a[i].key < b[j].key then Meet(a[i + 1..], b[j..])
      else Meet(a[i..], b[j + 1..])
  {
    assert a[i..][0] == a[i] && a[i..][1..] == a[i + 1..];
    assert b[j..][0] == b[j] && b[j..][1..] == b[j + 1..];
  }

  /** Skipping pairs of the left side whose keys are below the right side's current key changes nothing. */
  lemma {:induction false} MeetSkipLeft(a: seq<Entry>, i: int, r: int, b: seq<Entry>, j: int)
    requires AllValid(a) && AllValid(b) && 0 <= i <= r <= |a| && 0 <= j < |b|
    requires forall k :: i <= k < r ==> a[k].key < b[j].key
    ensures Meet(a[i..], b[j..]) == Meet(a[r..], b[j..])
    decreases r - i
  {
    if i < r {
      MeetUnfold(a, i, b, j);
      MeetSkipLeft(a, i + 1, r, b, j);
    }
  }

  /** Skipping pairs of the right side whose keys are below the left side's current key changes nothing. */
  lemma {:induction false} MeetSkipRight(a: seq<Entry>, i: int, b: seq<Entry>, j: int, r: int)
    requires AllValid(a) && AllValid(b) && 0 <= i < |a| && 0 <= j <= r <= |b|
    requires forall k :: j <= k < r ==> b[k].key < a[i].key
    ensures Meet(a[i..], b[j..]) == Meet(a[i..], b[r..])
    decreases r - j
  {
    if j < r {
      MeetUnfold(a, i, b, j);
      MeetSkipRight(a, i, b, j + 1, r);
    }
  }

  /** The value a key gets in the intersection of two indexes. */
  function MeetPick(c: Option<Container>, d: Option<Container>): Option<Container>
    requires (c.Some? ==> Valid(c.value)) && (d.Some? ==> Valid(d.value))
  {
    if c.Some? && d.Some? && ContainerDispatch.And(c.value, d.value).cardinality > 0 then Some(ContainerDispatch.And(c.value, d.value))
    else None
  }

  /** No pair or one pair under key `k`, in front of a sound list of larger keys. */
  lemma PieceSound(piece: seq<Entry>, k: int, rest: seq<Entry>)
    requires AllValid(piece) && (piece == [] || (|piece| == 1 && piece[0].key as int == k))
    requires Sound(rest) && forall j :: j in Keys(rest) ==> k < j
    ensures Sound(piece + rest)
    ensures forall j :: j in Keys(piece + rest) ==> j == k || j in Keys(rest)
  {
    if piece == [] {
      assert piece + rest == rest;
    } else {
      assert piece == [piece[0]];
      KeysCons(piece[0], rest);
      IncreasingCons(k, Keys(rest));
    }
  }

  /** A pair kept only when non-empty, in front of a sound list of larger keys. */
  lemma KeptSound(head: u16, c: Container, rest: seq<Entry>)
    requires Valid(c) && Sound(rest) && forall k :: k in Keys(rest) ==> head as int < k
    ensures Sound(KeepNonEmpty(head, c) + rest)
    ensures forall k :: k in Keys(KeepNonEmpty(head, c) + rest) ==> k == head as int || k in Keys(rest)
  {
    PieceSound(KeepNonEmpty(head, c), head as int, rest);
  }

  /** The keys of the intersection walk increase and come from its left side. */
  lemma {:induction false} MeetSound(a: seq<Entry>, b: seq<Entry>)
    requires Sound(a) && Sound(b)
    ensures Sound(Meet(a, b))
    ensures forall k :: k in Keys(Meet(a, b)) ==> k in Keys(a)
    decreases |a| + |b|
  {
    if |a| > 0 && |b| > 0 {
      SoundTail(a);
      SoundTail(b);
      KeysTail(a);
      if a[0].key == b[0].key {
        MeetSound(a[1..], b[1..]);
        KeptSound(a[0].key, ContainerDispatch.And(a[0].container, b[0].container), Meet(a[1..], b[1..]));
      } else if a[0].key < b[0].key {
        MeetSound(a[1..], b);
      } else {
        MeetSound(a, b[1..]);
      }
    }
  }

  /** Looking up a key in the intersection walk. */
  lemma {:induction false} MeetFind(a: seq<Entry>, b: seq<Entry>, key: int)
    requires Sound(a) && Sound(b)
    ensures Find(Meet(a, b), key) == MeetPick(Find(a, key), Find(b, key))
    decreases |a| + |b|
  {
    if |a| > 0 && |b| > 0 {
      SoundTail(a);
      SoundTail(b);
      if a[0].key == b[0].key {
        MeetFind(a[1..], b[1..], key);
        FindAbsent(a[1..], a[0].key as int);
        FindAbsent(b[1..], a[0].key as int);
        MeetFindShared(a, b, key);
      } else if a[0].key < b[0].key {
        MeetFind(a[1..], b, key);
        if key == a[0].key as int {
          FindBelow(b, key);
        }
      } else {
        MeetFind(a, b[1..], key);
        if key == b[0].key as int {
          FindBelow(a, key);
        }
      }
    }
  }

  /** Looking up behind no pair or one pair under key `k`. */
  lemma FindPiece(piece: seq<Entry>, k: int, rest: seq<Entry>, key: int)
    requires piece == [] || (|piece| == 1 && piece[0].key as int == k)
    ensures Find(piece + rest, key) == if key == k && piece != [] then Some(piece[0].container) else Find(rest, key)
  {
    FindAppend(piece, rest, key);
  }

  /** Looking up behind a pair that is kept only when non-empty. */
  lemma FindKept(head: u16, c: Container, rest: seq<Entry>, key: int)
    ensures Find(KeepNonEmpty(head, c) + rest, key) == if key == head as int && c.cardinality > 0 then Some(c) else Find(rest, key)
  {
    FindAppend(KeepNonEmpty(head, c), rest, key);
  }

  /** The step of `MeetFind` at a shared key. */
  lemma MeetFindShared(a: seq<Entry>, b: seq<Entry>, key: int)
    requires AllValid(a) && AllValid(b) && |a| > 0 && |b| > 0 && a[0].key == b[0].key
    requires AllValid(a[1..]) && AllValid(b[1..])
    requires Find(a[1..], a[0].key as int) == None && Find(b[1..], a[0].key as int) == None
    requires Find(Meet(a[1..], b[1..]), key) == MeetPick(Find(a[1..], key), Find(b[1..], key))
    ensures Find(Meet(a, b), key) == MeetPick(Find(a, key), Find(b, key))
  {
    FindKept(a[0].key, ContainerDispatch.And(a[0].container, b[0].container), Meet(a[1..], b[1..]), key);
  }

  /** The invariant of the walk survives a shared key, whether or not its intersection is kept. */
  lemma MeetShared(xs: seq<Entry>, xPos: int, ys: seq<Entry>, yPos: int, list: seq<Entry>, whole: seq<Entry>)
    requires AllValid(xs) && AllValid(ys) && 0 <= xPos < |xs| && 0 <= yPos < |ys| && xs[xPos].key == ys[yPos].key
    requires list + Meet(xs[xPos..], ys[yPos..]) == whole
    ensures (list + KeepNonEmpty(xs[xPos].key, ContainerDispatch.And(xs[xPos].container, ys[yPos].container))) + Meet(xs[xPos + 1..], ys[yPos + 1..]) == whole
  {
    MeetUnfold(xs, xPos, ys, yPos);
    var kept := KeepNonEmpty(xs[xPos].key, ContainerDispatch.And(xs[xPos].container, ys[yPos].container));
    ShiftAll(list, kept, Meet(xs[xPos + 1..], ys[yPos + 1..]), whole);
  }

  /**
    The private `AdvanceUntil(key, index)`: `Util.AdvanceUntil` over the whole
    key array, the first position after `index` whose key is at least `key`,
    or the size when there is none.
   */
  function AdvanceUntil(ra: RoaringArray, key: u16, index: int): (r: int)
    requires ValidArray(ra) && 0 <= index < ra.size
    ensures index < r <= ra.size
    ensures forall i :: index < i < r ==> ra.keys[i] < key
    ensures r < ra.size ==> ra.keys[r] >= key
  {
    KeysSorted(ra, index + 1);
    Util.AdvanceUntil(ra.keys, index, |ra.keys|, key)
  }

  /** The body of `if (c.Cardinality > 0)`: create the list on first use and add the pair. */
  method AddNonEmpty(list: Option<seq<Entry>>, key: u16, c: Container) returns (out: Option<seq<Entry>>)
    ensures Listed(out) == Listed(list) + KeepNonEmpty(key, c)
  {
    out := list;
    if c.cardinality > 0 {
      if out == None {
        out := Some([]);
      }
      out := Some(out.value + [Entry(key, c)]);
    } else {
      assert Listed(list) + [] == Listed(list);
    }
  }

  /** `xPos = x.AdvanceUntil(yKey, xPos)` keeps the invariant of the `&` walk. */
  lemma AdvanceLeft(x: RoaringArray, xPos: int, y: RoaringArray, yPos: int, list: seq<Entry>, whole: seq<Entry>)
    requires ValidArray(x) && ValidArray(y) && 0 <= xPos < x.size && 0 <= yPos < y.size
    requires x.keys[xPos] < y.keys[yPos]
    requires list + Meet(Entries(x)[xPos..], Entries(y)[yPos..]) == whole
    ensures list + Meet(Entries(x)[AdvanceUntil(x, y.keys[yPos], xPos)..], Entries(y)[yPos..]) == whole
  {
    var next := AdvanceUntil(x, y.keys[yPos], xPos);
    MeetSkipLeft(Entries(x), xPos, next, Entries(y), yPos);
  }

  /** `yPos = y.AdvanceUntil(xKey, yPos)` keeps the invariant of the `&` walk. */
  lemma AdvanceRight(x: RoaringArray, xPos: int, y: RoaringArray, yPos: int, list: seq<Entry>, whole: seq<Entry>)
    requires ValidArray(x) && ValidArray(y) && 0 <= xPos < x.size && 0 <= yPos < y.size
    requires y.keys[yPos] < x.keys[xPos]
    requires list + Meet(Entries(x)[xPos..], Entries(y)[yPos..]) == whole
    ensures list + Meet(Entries(x)[xPos..], Entries(y)[AdvanceUntil(y, x.keys[xPos], yPos)..]) == whole
  {
    var next := AdvanceUntil(y, x.keys[xPos], yPos);
    MeetSkipRight(Entries(x), xPos, Entries(y), yPos, next);
  }

  /** The loop of `operator &`: the list stays `null` until a non-empty intersection turns up. */
  method MeetWalk(x: RoaringArray, y: RoaringArray) returns (list: Option<seq<Entry>>)
    requires ValidArray(x) && ValidArray(y)
    ensures Listed(list) == Meet(Entries(x), Entries(y))
  {
    ghost var xs := Entries(x);
    ghost var ys := Entries(y);
    ghost var whole := Meet(xs, ys);
    var xLength := x.size;
    var yLength := y.size;
    list := None;
    var xPos := 0;
    var yPos := 0;
    while xPos < xLength && yPos < yLength
      invariant 0 <= xPos <= xLength && 0 <= yPos <= yLength
      invariant Listed(list) + Meet(xs[xPos..], ys[yPos..]) == whole
      decreases xLength - xPos + yLength - yPos
    {
      var xKey := x.keys[xPos];
      var yKey := y.keys[yPos];
      if xKey == yKey {
        var c := ContainerDispatch.And(x.values[xPos], y.values[yPos]);
        MeetShared(xs, xPos, ys, yPos, Listed(list), whole);
        list := AddNonEmpty(list, xKey, c);
        xPos := xPos + 1;
        yPos := yPos + 1;
      } else if xKey < yKey {
        AdvanceLeft(x, xPos, y, yPos, Listed(list), whole);
        xPos := AdvanceUntil(x, yKey, xPos);
      } else {
        AdvanceRight(x, xPos, y, yPos, Listed(list), whole);
        yPos := AdvanceUntil(y, xKey, yPos);
      }
    }
    assert Meet(xs[xPos..], ys[yPos..]) == [];
  }

  /** `operator &`: the walk over shared keys, then the constructor, which makes a `null` list the empty index. */
  method And(x: RoaringArray, y: RoaringArray) returns (r: RoaringArray)
    requires ValidArray(x) && ValidArray(y)
    ensures Holds(r, Meet(Entries(x), Entries(y))) && ValidArray(r)
  {
    var list := MeetWalk(x, y);
    r := New(list);
    MeetSound(Entries(x), Entries(y));
    HoldsValid(r, Listed(list));
  }

  /** `x & y` holds exactly the members of both indexes, and keeps no empty container. */
  lemma AndMembers(a: seq<Entry>, b: seq<Entry>, key: int, low: int)
    requires Sound(a) && Sound(b)
    ensures Has(Meet(a, b), key, low) <==> Has(a, key, low) && Has(b, key, low)
  {
    MeetFind(a, b, key);
    var c := Find(a, key);
    var d := Find(b, key);
    if c.Some? && d.Some? {
      ContainerDispatch.AndSpec(c.value, d.value);
      IntersectSpec(Elements(c.value), Elements(d.value));
    }
  }

  // ---------------------------------------------------------------------
  // ~: the complement, key by key from 0 up to but excluding 65535

  /** `ushort.MaxValue`, the exclusive bound of the key loop of `~`. */
  const UShortMax: int := 0xFFFF

  /** The container `~` gives key `k`: `One` for a missing key, otherwise the complement, when it is non-empty. */
  function Flipped(e: seq<Entry>, k: int): (r: Option<Container>)
    requires AllValid(e)
    ensures r.Some? ==> Valid(r.value) && r.value.cardinality > 0
  {
    match Find(e, k)
    case None => BitmapContainers.FullSpec(0); Some(BitmapContainers.Full())
    case Some(c) => if ContainerDispatch.Not(c).cardinality > 0 then Some(ContainerDispatch.Not(c)) else None
  }

  /** The pairs `~` adds for key `k`: none or one. */
  function Flip(e: seq<Entry>, k: int): (r: seq<Entry>)
    requires AllValid(e) && 0 <= k < MaxCapacity
    ensures AllValid(r) && (r == [] || (|r| == 1 && r[0].key as int == k))
    ensures r == [] <==> Flipped(e, k).None?
    ensures r != [] ==> r[0].container == Flipped(e, k).value
  {
    var f := Flipped(e, k);
    if f.Some? then [Entry(k as u16, f.value)] else []
  }

  /** The list `~` builds for the keys `i` up to `limit`, exclusive. */
  function Complement(e: seq<Entry>, i: int, limit: int): (r: seq<Entry>)
    requires AllValid(e) && 0 <= i <= limit <= MaxCapacity
    ensures AllValid(r)
    decreases limit - i
  {
    if i == limit then [] else Flip(e, i) + Complement(e, i + 1, limit)
  }

  /** What `Array.BinarySearch` reports decides the pairs of key `i`. */
  lemma FlipAt(x: RoaringArray, i: int, index: int)
    requires ValidArray(x) && 0 <= i < MaxCapacity
    requires index == BinarySearch(x.keys, 0, |x.keys|, i)
    ensures index < 0 ==> Flip(Entries(x), i) == [Entry(i as u16, BitmapContainers.Full())]
    ensures index >= 0 ==> 0 <= index < |x.values| && Flip(Entries(x), i) == KeepNonEmpty(i as u16, ContainerDispatch.Not(x.values[index]))
  {
    var xs := Entries(x);
    KeysSorted(x, 0);
    if index >= 0 {
      FindAt(xs, index);
    } else {
      assert i !in Keys(xs);
      FindAbsent(xs, i);
    }
  }

  /**
    The body of the key loop of `~` for key `i`: `Array.BinarySearch` for the
    key, then `One` for a missing key or the non-empty complement of the
    stored container.
   */
  method FlipKey(x: RoaringArray, i: int, list: seq<Entry>) returns (out: seq<Entry>)
    requires ValidArray(x) && 0 <= i < MaxCapacity
    ensures out == list + Flip(Entries(x), i)
  {
    var index := BinarySearch(x.keys, 0, |x.keys|, i);
    FlipAt(x, i, index);
    if index < 0 {
      out := list + [Entry(i as u16, BitmapContainers.Full())];
    } else {
      var c := ContainerDispatch.Not(x.values[index]);
      out := AppendNonEmpty(list, i as u16, c);
    }
  }

  /** One more key of the complement list. */
  lemma ComplementAdvance(e: seq<Entry>, i: int, limit: int, list: seq<Entry>, whole: seq<Entry>)
    requires AllValid(e) && 0 <= i < limit <= MaxCapacity
    requires list + Complement(e, i, limit) == whole
    ensures (list + Flip(e, i)) + Complement(e, i + 1, limit) == whole
  {
    ShiftAll(list, Flip(e, i), Complement(e, i + 1, limit), whole);
  }

  /** The key loop of `operator ~`, `for (ushort i = 0; i < ushort.MaxValue; i++)`. */
  method ComplementWalk(x: RoaringArray) returns (list: seq<Entry>)
    requires ValidArray(x)
    ensures list == Complement(Entries(x), 0, UShortMax)
  {
    ghost var xs := Entries(x);
    ghost var whole := Complement(xs, 0, UShortMax);
    list := [];
    EmptyUnit(whole);
    for i := 0 to UShortMax
      invariant list + Complement(xs, i, UShortMax) == whole
    {
      ComplementAdvance(xs, i, UShortMax, list, whole);
      list := FlipKey(x, i, list);
    }
    EmptyUnit(list);
  }

  /** The body of `if (c.Cardinality > 0) list.Add(...)` for a list that already exists. */
  method AppendNonEmpty(list: seq<Entry>, key: u16, c: Container) returns (out: seq<Entry>)
    ensures out == list + KeepNonEmpty(key, c)
  {
    out := list;
    if c.cardinality > 0 {
      out := out + [Entry(key, c)];
    } else {
      assert list + [] == list;
    }
  }

  /** `operator ~`: the key loop, then the constructor. */
  method Not(x: RoaringArray) returns (r: RoaringArray)
    requires ValidArray(x)
    ensures Holds(r, Complement(Entries(x), 0, UShortMax)) && ValidArray(r)
  {
    var list := ComplementWalk(x);
    r := New(Some(list));
    ComplementSound(Entries(x), 0, UShortMax);
    HoldsValid(r, list);
  }

  /** The complement list has increasing keys from `i` up to `limit`, exclusive. */
  lemma {:induction false} ComplementSound(e: seq<Entry>, i: int, limit: int)
    requires AllValid(e) && 0 <= i <= limit <= MaxCapacity
    ensures Sound(Complement(e, i, limit))
    ensures forall k :: k in Keys(Complement(e, i, limit)) ==> i <= k < limit
    decreases limit - i
  {
    if i < limit {
      ComplementSound(e, i + 1, limit);
      PieceSound(Flip(e, i), i, Complement(e, i + 1, limit));
    }
  }

  /** Looking up a key in the complement list: `Flipped` inside the range, nothing outside it. */
  lemma {:induction false} ComplementFind(e: seq<Entry>, i: int, limit: int, key: int)
    requires AllValid(e) && 0 <= i <= limit <= MaxCapacity
    ensures Find(Complement(e, i, limit), key) == if i <= key < limit then Flipped(e, key) else None
    decreases limit - i
  {
    if i < limit {
      ComplementFind(e, i + 1, limit, key);
      FindPiece(Flip(e, i), i, Complement(e, i + 1, limit), key);
    }
  }

  /**
    `~x` holds the pair `(key, low)` exactly when `key` is below the bound of
    the loop, `low` is a 16-bit value and `x` does not hold the pair.  With
    the bound `ushort.MaxValue` the key 65535 is never emitted.
   */
  lemma NotMembers(e: seq<Entry>, limit: int, key: int, low: int)
    requires AllValid(e) && 0 <= limit <= MaxCapacity
    ensures Has(Complement(e, 0, limit), key, low) <==> 0 <= key < limit && 0 <= low < MaxCapacity && !Has(e, key, low)
  {
    ComplementFind(e, 0, limit, key);
    var found := Find(e, key);
    if found.Some? {
      ContainerDispatch.NotSpec(found.value, low);
    } else {
      BitmapContainers.FullSpec(low);
    }
  }

  // ---------------------------------------------------------------------
  // Enumeration and cardinality

  /** `shiftedKey | @ushort` for each member of one container, in the container's order. */
  function JoinAll(key: u16, lows: seq<int>): (r: seq<i32>)
    requires Short(lows)
    ensures |r| == |lows| && forall i :: 0 <= i < |lows| ==> r[i] == Join(key, lows[i] as u16)
  {
    seq(|lows|, i requires 0 <= i < |lows| => Join(key, lows[i] as u16))
  }

  /** `GetEnumerator`: the containers in index order, each member joined with its key. */
  function Enumerate(e: seq<Entry>): seq<i32>
    requires AllValid(e)
    decreases |e|
  {
    if |e| == 0 then [] else JoinAll(e[0].key, Elements(e[0].container)) + Enumerate(e[1..])
  }

  /** The 32-bit pattern of a C# `int` read as unsigned: the order the enumerator yields values in. */
  function Unsigned(v: i32): int
  {
    v % 0x1_0000_0000
  }

  /** `Unsigned` of every value of a sequence. */
  function UnsignedAll(r: seq<i32>): (u: seq<int>)
    ensures |u| == |r| && forall i :: 0 <= i < |r| ==> u[i] == Unsigned(r[i])
  {
    seq(|r|, i requires 0 <= i < |r| => Unsigned(r[i]))
  }

  /** A joined value read as unsigned is `key * 65536 + low`. */
  lemma UnsignedJoin(key: u16, low: u16)
    ensures Unsigned(Join(key, low)) == key as int * 0x1_0000 + low as int
  {
    var x := key as int * 0x1_0000 + low as int;
    ToInt32Congruent(Join(key, low), x);
    assert (Join(key, low) - x) % 0x1_0000_0000 == 0;
  }

  /** A value belongs to one container's joined members exactly when its high bits are the key and its low bits a member. */
  lemma JoinAllMembers(key: u16, lows: seq<int>, v: i32)
    requires Short(lows)
    ensures v in JoinAll(key, lows) <==> HighBits(v) == key && LowBits(v) as int in lows
  {
    var r := JoinAll(key, lows);
    if v in r {
      var i :| 0 <= i < |r| && r[i] == v;
      SplitJoin(key, lows[i] as u16);
    }
    if HighBits(v) == key && LowBits(v) as int in lows {
      var i :| 0 <= i < |lows| && lows[i] == LowBits(v) as int;
      JoinSplit(v);
      assert r[i] == v;
    }
  }

  /** The enumeration yields exactly the members of a sound index: value `v` is the pair of its high and low bits. */
  lemma {:induction false} EnumerateMembers(e: seq<Entry>, v: i32)
    requires Sound(e)
    ensures v in Enumerate(e) <==> Has(e, HighBits(v) as int, LowBits(v) as int)
    decreases |e|
  {
    if |e| > 0 {
      SoundTail(e);
      EnumerateMembers(e[1..], v);
      JoinAllMembers(e[0].key, Elements(e[0].container), v);
      FindAbsent(e[1..], e[0].key as int);
    }
  }

  /** Cardinalities add up over a concatenation. */
  lemma {:induction false} TotalAppend(a: seq<Entry>, b: seq<Entry>)
    ensures Total(a + b) == Total(a) + Total(b)
    decreases |b|
  {
    if |b| == 0 {
      assert a + b == a;
    } else {
      var b' := b[..|b| - 1];
      assert (a + b)[..|a + b| - 1] == a + b';
      TotalAppend(a, b');
    }
  }

  /** The enumeration yields as many values as the cached cardinalities add up to. */
  lemma {:induction false} EnumerateLength(e: seq<Entry>)
    requires AllValid(e)
    ensures |Enumerate(e)| == Total(e)
    decreases |e|
  {
    if |e| > 0 {
      EnumerateLength(e[1..]);
      EnumerateFront(e);
      TotalFront(e);
    }
  }

  /** The first pair contributes as many values as its container's cardinality. */
  lemma EnumerateFront(e: seq<Entry>)
    requires AllValid(e) && |e| > 0
    ensures |Enumerate(e)| == e[0].container.cardinality + |Enumerate(e[1..])|
  {
    var head := JoinAll(e[0].key, Elements(e[0].container));
    assert |head| == e[0].container.cardinality;
  }

  /** `Total` read from the front. */
  lemma TotalFront(e: seq<Entry>)
    requires |e| > 0
    ensures Total(e) == e[0].container.cardinality + Total(e[1..])
  {
    assert e == [e[0]] + e[1..];
    assert Total([e[0]]) == e[0].container.cardinality by {
      assert [e[0]][..0] == [];
    }
    TotalAppend([e[0]], e[1..]);
  }

  /** Every value enumerated from pairs whose keys are at least `m` is at least `m * 65536` as unsigned. */
  lemma {:induction false} EnumerateAbove(e: seq<Entry>, m: int)
    requires AllValid(e) && forall k :: k in Keys(e) ==> m <= k
    ensures forall x :: x in UnsignedAll(Enumerate(e)) ==> m * 0x1_0000 <= x
    decreases |e|
  {
    if |e| > 0 {
      KeysTail(e);
      assert Keys(e)[0] == e[0].key as int;
      assert e[0].key as int in Keys(e);
      forall k | k in Keys(e[1..])
        ensures m <= k
      {
        assert k in Keys(e);
      }
      EnumerateAbove(e[1..], m);
      var lows := Elements(e[0].container);
      var head := JoinAll(e[0].key, lows);
      forall i | 0 <= i < |head|
        ensures m * 0x1_0000 <= Unsigned(head[i])
      {
        UnsignedJoin(e[0].key, lows[i] as u16);
        assert 0 <= lows[i];
      }
      UnsignedAppend(head, Enumerate(e[1..]));
    }
  }

  /** Reading as unsigned distributes over concatenation. */
  lemma UnsignedAppend(a: seq<i32>, b: seq<i32>)
    ensures UnsignedAll(a + b) == UnsignedAll(a) + UnsignedAll(b)
  {
  }

  /** One container's joined members strictly increase as unsigned values. */
  lemma JoinAllOrdered(key: u16, lows: seq<int>)
    requires Short(lows) && Increasing(lows)
    ensures Increasing(UnsignedAll(JoinAll(key, lows)))
    ensures forall x :: x in UnsignedAll(JoinAll(key, lows)) ==> x < (key as int + 1) * 0x1_0000
  {
    var u := UnsignedAll(JoinAll(key, lows));
    forall i | 0 <= i < |lows|
      ensures u[i] == key as int * 0x1_0000 + lows[i]
    {
      UnsignedJoin(key, lows[i] as u16);
    }
  }

  /** The enumeration of a sound index strictly increases as unsigned values: by key, then by low bits. */
  lemma {:induction false} EnumerateOrdered(e: seq<Entry>)
    requires Sound(e)
    ensures Increasing(UnsignedAll(Enumerate(e)))
    decreases |e|
  {
    if |e| > 0 {
      SoundTail(e);
      EnumerateOrdered(e[1..]);
      var k := e[0].key;
      JoinAllOrdered(k, Elements(e[0].container));
      EnumerateAbove(e[1..], k as int + 1);
      var head := UnsignedAll(JoinAll(k, Elements(e[0].container)));
      var tail := UnsignedAll(Enumerate(e[1..]));
      IncreasingAppend(head, tail);
      UnsignedAppend(JoinAll(k, Elements(e[0].container)), Enumerate(e[1..]));
    }
  }

  /**
    The number of members of an index, counted without wrapping: what
    `Cardinality` reports once the sum is kept in a 64-bit `long`, as the
    façade's `long Cardinality` promises.
   */
  function Cardinality(ra: RoaringArray): (n: int)
    requires ValidArray(ra)
    ensures n == |Enumerate(Entries(ra))|
    ensures ra.cardinality == ToInt32(n)
  {
    EnumerateLength(Entries(ra));
    Total(Entries(ra))
  }

  /** The complement list of the empty index has 65536 members under each key it covers. */
  lemma {:induction false} ComplementOfEmptyTotal(i: int, limit: int)
    requires 0 <= i <= limit <= MaxCapacity
    ensures Total(Complement([], i, limit)) == (limit - i) * MaxCapacity
    decreases limit - i
  {
    if i < limit {
      ComplementOfEmptyTotal(i + 1, limit);
      assert Find([], i) == None;
      TotalAppend(Flip([], i), Complement([], i + 1, limit));
      assert Flip([], i) == [] + [Flip([], i)[0]];
    }
  }

  /**
    `~` of the empty index holds 65535 full containers, 4294901760 members,
    but the constructor sums them in a C# `int` and caches -65536.
   */
  lemma EmptyComplementWraps(n: RoaringArray)
    requires Holds(n, Complement([], 0, UShortMax))
    ensures ValidArray(n)
    ensures Cardinality(n) == 4294901760 && n.cardinality == -65536
  {
    ComplementSound([], 0, UShortMax);
    HoldsValid(n, Complement([], 0, UShortMax));
    ComplementOfEmptyTotal(0, UShortMax);
    WrapFull();
  }

  /** 4294901760 wraps to the C# `int` -65536. */
  lemma WrapFull()
    ensures ToInt32(4294901760) == -65536
  {
  }

  // ---------------------------------------------------------------------
  // Equals

  /** What `Equals(RoaringArray)` compares: sizes, keys position by position, and containers by `Container.Equals`. */
  predicate Equal(x: RoaringArray, y: RoaringArray)
    requires ValidArray(x) && ValidArray(y)
  {
    x.size == y.size && |x.keys| == |y.keys| && |x.values| == |y.values|
    && (forall i :: 0 <= i < |x.keys| ==> x.keys[i] == y.keys[i])
    && forall i :: 0 <= i < |x.values| ==> ContainerDispatch.Same(x.values[i], y.values[i])
  }

  /** `Equals(RoaringArray other)`: the three length checks, then the key loop, then the container loop. */
  method Equals(x: RoaringArray, other: RoaringArray) returns (r: bool)
    requires ValidArray(x) && ValidArray(other)
    ensures r == Equal(x, other)
  {
    if x.size != other.size {
      return false;
    }
    if |x.keys| != |other.keys| {
      return false;
    }
    if |x.values| != |other.values| {
      return false;
    }
    for i := 0 to |x.keys|
      invariant forall j :: 0 <= j < i ==> x.keys[j] == other.keys[j]
    {
      if x.keys[i] != other.keys[i] {
        return false;
      }
    }
    for i := 0 to |x.values|
      invariant forall j :: 0 <= j < i ==> ContainerDispatch.Same(x.values[j], other.values[j])
    {
      var same := ContainerDispatch.Equals(x.values[i], other.values[i]);
      if !same {
        return false;
      }
    }
    return true;
  }

  /** The shape the library's builders keep: every container canonical and non-empty. */
  predicate Compact(e: seq<Entry>)
  {
    forall i :: 0 <= i < |e| ==> Canonical(e[i].container) && e[i].container.cardinality > 0
  }

  /** A found key is a stored key. */
  lemma {:induction false} FindSome(e: seq<Entry>, key: int)
    requires Find(e, key).Some?
    ensures key in Keys(e)
  {
    KeysTail(e);
    if e[0].key as int != key {
      FindSome(e[1..], key);
    }
  }

  /** A stored key has a member in a compact list. */
  lemma KeyHasMember(e: seq<Entry>, i: int) returns (low: int)
    requires Sound(e) && Compact(e) && 0 <= i < |e|
    ensures Has(e, e[i].key as int, low)
  {
    FindAt(e, i);
    var els := Elements(e[i].container);
    low := els[0];
    assert low in els;
  }

  /** Indexes that hold the same pairs have the same keys. */
  lemma SameKeys(x: RoaringArray, y: RoaringArray)
    requires ValidArray(x) && ValidArray(y) && Compact(Entries(x)) && Compact(Entries(y))
    requires forall k, l :: Has(Entries(x), k, l) <==> Has(Entries(y), k, l)
    ensures Keys(Entries(x)) == Keys(Entries(y))
  {
    var xs := Entries(x);
    var ys := Entries(y);
    forall k | k in Keys(xs)
      ensures k in Keys(ys)
    {
      var i :| 0 <= i < |xs| && Keys(xs)[i] == k;
      var low := KeyHasMember(xs, i);
      assert Has(ys, k, low);
      FindSome(ys, k);
    }
    forall k | k in Keys(ys)
      ensures k in Keys(xs)
    {
      var i :| 0 <= i < |ys| && Keys(ys)[i] == k;
      var low := KeyHasMember(ys, i);
      assert Has(xs, k, low);
      FindSome(xs, k);
    }
    IncreasingExt(Keys(xs), Keys(ys));
  }

  /** Under equal keys, `Equals` containers hold the same members wherever they sit. */
  lemma EqualHas(x: RoaringArray, y: RoaringArray, key: int, low: int)
    requires ValidArray(x) && ValidArray(y) && Equal(x, y)
    ensures Has(Entries(x), key, low) <==> Has(Entries(y), key, low)
  {
    var xs := Entries(x);
    var ys := Entries(y);
    assert Keys(xs) == Keys(ys);
    if key in Keys(xs) {
      var i :| 0 <= i < |xs| && Keys(xs)[i] == key;
      FindAt(xs, i);
      FindAt(ys, i);
      ContainerDispatch.SameMembers(x.values[i], y.values[i]);
    } else {
      FindAbsent(xs, key);
      FindAbsent(ys, key);
    }
  }

  /** Containers stored at the same position of indexes with the same pairs `Equals` each other. */
  lemma SameAt(x: RoaringArray, y: RoaringArray, i: int)
    requires ValidArray(x) && ValidArray(y) && Compact(Entries(x)) && Compact(Entries(y))
    requires Keys(Entries(x)) == Keys(Entries(y)) && 0 <= i < |x.values|
    requires forall k, l :: Has(Entries(x), k, l) <==> Has(Entries(y), k, l)
    ensures ContainerDispatch.Same(x.values[i], y.values[i])
  {
    var xs := Entries(x);
    var ys := Entries(y);
    var key := x.keys[i] as int;
    assert Keys(xs)[i] == key == Keys(ys)[i];
    FindAt(xs, i);
    FindAt(ys, i);
    var c := x.values[i];
    var d := y.values[i];
    forall low
      ensures low in Elements(c) <==> low in Elements(d)
    {
      assert Has(xs, key, low) <==> Has(ys, key, low);
    }
    IncreasingExt(Elements(c), Elements(d));
    ContainerDispatch.SameMembers(c, d);
  }

  /**
    For compact indexes, `Equals` is equality of the sets of pairs they hold:
    the representation is unique.
   */
  lemma EqualsMembers(x: RoaringArray, y: RoaringArray)
    requires ValidArray(x) && ValidArray(y) && Compact(Entries(x)) && Compact(Entries(y))
    ensures Equal(x, y) <==> forall k, l :: Has(Entries(x), k, l) <==> Has(Entries(y), k, l)
  {
    if Equal(x, y) {
      forall k, l
        ensures Has(Entries(x), k, l) <==> Has(Entries(y), k, l)
      {
        EqualHas(x, y, k, l);
      }
    }
    if forall k, l :: Has(Entries(x), k, l) <==> Has(Entries(y), k, l) {
      SameKeys(x, y);
      var xs := Entries(x);
      var ys := Entries(y);
      forall i | 0 <= i < |x.keys|
        ensures x.keys[i] == y.keys[i]
      {
        assert Keys(xs)[i] == Keys(ys)[i];
      }
      forall i | 0 <= i < |x.values|
        ensures ContainerDispatch.Same(x.values[i], y.values[i])
      {
        SameAt(x, y, i);
      }
    }
  }

  // ---------------------------------------------------------------------
  // The operators keep indexes compact; `~~x` Equals `x`

  /** Concatenating compact lists gives a compact list. */
  lemma CompactAppend(a: seq<Entry>, b: seq<Entry>)
    requires Compact(a) && Compact(b)
    ensures Compact(a + b)
  {
    forall i | 0 <= i < |a + b|
      ensures Canonical((a + b)[i].container) && (a + b)[i].container.cardinality > 0
    {
      if i < |a| {
        assert (a + b)[i] == a[i];
      } else {
        assert (a + b)[i] == b[i - |a|];
      }
    }
  }

  /** The container found in a compact list is canonical. */
  lemma {:induction false} FindCompact(e: seq<Entry>, key: int)
    requires Compact(e) && Find(e, key).Some?
    ensures Canonical(Find(e, key).value) && Find(e, key).value.cardinality > 0
  {
    if e[0].key as int != key {
      assert Compact(e[1..]);
      FindCompact(e[1..], key);
    }
  }

  /** The complement of a compact list is compact: `One` and the complements of canonical containers are canonical. */
  lemma {:induction false} ComplementCompact(e: seq<Entry>, i: int, limit: int)
    requires AllValid(e) && Compact(e) && 0 <= i <= limit <= MaxCapacity
    ensures Compact(Complement(e, i, limit))
    decreases limit - i
  {
    if i < limit {
      ComplementCompact(e, i + 1, limit);
      var found := Find(e, i);
      if found.Some? {
        FindCompact(e, i);
        ContainerDispatch.NotSpec(found.value, 0);
      } else {
        BitmapContainers.FullSpec(0);
      }
      CompactAppend(Flip(e, i), Complement(e, i + 1, limit));
    }
  }

  /** The intersection walk of compact lists is compact. */
  lemma {:induction false} MeetCompact(a: seq<Entry>, b: seq<Entry>)
    requires AllValid(a) && AllValid(b) && Compact(a) && Compact(b)
    ensures Compact(Meet(a, b))
    decreases |a| + |b|
  {
    if |a| > 0 && |b| > 0 {
      assert Compact(a[1..]) && Compact(b[1..]);
      if a[0].key == b[0].key {
        MeetCompact(a[1..], b[1..]);
        ContainerDispatch.AndSpec(a[0].container, b[0].container);
        CompactAppend(KeepNonEmpty(a[0].key, ContainerDispatch.And(a[0].container, b[0].container)), Meet(a[1..], b[1..]));
      } else if a[0].key < b[0].key {
        MeetCompact(a[1..], b);
      } else {
        MeetCompact(a, b[1..]);
      }
    }
  }

  /** The `|` walk of compact lists is compact: a union of non-empty containers is non-empty. */
  lemma {:induction false} OrCompact(a: seq<Entry>, b: seq<Entry>)
    requires AllValid(a) && AllValid(b) && Compact(a) && Compact(b)
    ensures Compact(Merge(OrMerge, a, b))
    decreases |a| + |b|
  {
    if |a| > 0 && |b| > 0 {
      assert Compact(a[1..]) && Compact(b[1..]);
      if a[0].key == b[0].key {
        OrCompact(a[1..], b[1..]);
        var c := a[0].container;
        var d := b[0].container;
        ContainerDispatch.OrSpec(c, d);
        UnionLonger(Elements(c), Elements(d));
        CompactAppend([Entry(a[0].key, Apply(OrMerge, c, d))], Merge(OrMerge, a[1..], b[1..]));
      } else if a[0].key < b[0].key {
        OrCompact(a[1..], b);
        CompactAppend([a[0]], Merge(OrMerge, a[1..], b));
      } else {
        OrCompact(a, b[1..]);
        CompactAppend([b[0]], Merge(OrMerge, a, b[1..]));
      }
    }
  }

  /** A pair held by an index has a stored key and a 16-bit low part. */
  lemma HasBounds(e: seq<Entry>, key: int, low: int)
    requires AllValid(e) && Has(e, key, low)
    ensures key in Keys(e) && 0 <= low < MaxCapacity
  {
    FindSome(e, key);
    var els := Elements(Find(e, key).value);
    var i :| 0 <= i < |els| && els[i] == low;
  }

  /**
    Complementing twice gives back an index that `Equals` the original, for a
    compact index that does not use key 65535 (the loop of `~` never reaches
    it).  `n` and `nn` are what the two calls of `Not` return.
   */
  lemma NotNotEquals(x: RoaringArray, n: RoaringArray, nn: RoaringArray)
    requires ValidArray(x) && Compact(Entries(x))
    requires forall i :: 0 <= i < |x.keys| ==> x.keys[i] < UShortMax
    requires Holds(n, Complement(Entries(x), 0, UShortMax))
    requires AllValid(Entries(n)) && Holds(nn, Complement(Entries(n), 0, UShortMax))
    ensures ValidArray(n) && ValidArray(nn) && Equal(nn, x)
  {
    var xs := Entries(x);
    ComplementSound(xs, 0, UShortMax);
    HoldsValid(n, Complement(xs, 0, UShortMax));
    ComplementCompact(xs, 0, UShortMax);
    var ns := Entries(n);
    ComplementSound(ns, 0, UShortMax);
    HoldsValid(nn, Complement(ns, 0, UShortMax));
    ComplementCompact(ns, 0, UShortMax);
    forall k, l
      ensures Has(Entries(nn), k, l) <==> Has(xs, k, l)
    {
      NotMembers(ns, UShortMax, k, l);
      NotMembers(xs, UShortMax, k, l);
      if Has(xs, k, l) {
        HasBounds(xs, k, l);
        var i :| 0 <= i < |xs| && Keys(xs)[i] == k;
      }
    }
    EqualsMembers(nn, x);
  }
}
