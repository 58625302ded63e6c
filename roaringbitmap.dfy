/**
  RoaringBitmap/RoaringBitmap.cs: the public set of 32-bit integers, an
  immutable wrapper around one index.  `Create` sorts and groups the values
  by their high 16 bits and picks a container per group; the operators wrap
  the index operator's result in a new bitmap and leave their operands alone,
  so a bitmap is a value.

  The LINQ pipeline `Distinct().OrderBy(t => t).GroupBy(Util.HighBits)
  .OrderBy(t => t.Key)` is the function `Grouped`: for every key in
  increasing order, the increasing low parts of the values under that key.
  The `foreach` over the groups is the loop of `Create`.
 */
module RoaringBitmaps {
  import opened Sorted
  import opened Words
  import opened Util
  import opened Containers
  import BitmapContainers
  import ArrayContainers
  import RoaringArrays
  import ContainerDispatch

  datatype RoaringBitmap = RoaringBitmap(highLow: RoaringArrays.RoaringArray)

  /** What every bitmap the library hands out satisfies: its index is valid. */
  predicate Valid(rb: RoaringBitmap)
  {
    RoaringArrays.ValidArray(rb.highLow)
  }

  /** The pairs of a bitmap's index. */
  function Pairs(rb: RoaringBitmap): seq<RoaringArrays.Entry>
    requires Valid(rb)
  {
    RoaringArrays.Entries(rb.highLow)
  }

  /** `GetEnumerator`: the enumeration of the index. */
  function Members(rb: RoaringBitmap): seq<i32>
    requires Valid(rb)
  {
    RoaringArrays.Enumerate(Pairs(rb))
  }

  // ---------------------------------------------------------------------
  // Create: grouping and representation choice

  /** One group of the pipeline: a key and the low parts of the values under it. */
  datatype Group = Group(key: u16, lows: seq<u16>)

  /**
    The low parts, from `low` upwards, under the high bits `key`, of the
    values whose unsigned readings are `us`.
   */
  function LowsFrom(us: seq<int>, key: u16, low: int): seq<u16>
    requires 0 <= low <= MaxCapacity
    decreases MaxCapacity - low
  {
    if low == MaxCapacity then []
    else (if key as int * 0x1_0000 + low in us then [low as u16] else []) + LowsFrom(us, key, low + 1)
  }

  /** The groups of the keys from `key` upwards that some value has. */
  function GroupsFrom(us: seq<int>, key: int): seq<Group>
    requires 0 <= key <= MaxCapacity
    decreases MaxCapacity - key
  {
    if key == MaxCapacity then []
    else
      var lows := LowsFrom(us, key as u16, 0);
      (if |lows| > 0 then [Group(key as u16, lows)] else []) + GroupsFrom(us, key + 1)
  }

  /** The result of the LINQ pipeline of `Create`. */
  function Grouped(values: seq<i32>): seq<Group>
  {
    GroupsFrom(RoaringArrays.UnsignedAll(values), 0)
  }

  /** The container of a group: `BitmapContainer.Create` above `MaxSize` values, `ArrayContainer.Create` otherwise. */
  function Represent(lows: seq<u16>): Container
  {
    if |lows| > MaxSize then BitmapContainers.NewOf(|lows|, lows, false) else ArrayContainers.Create(lows)
  }

  /** The pairs the `foreach` over the groups lists: each key with the container of its group. */
  function Layout(groups: seq<Group>): (e: seq<RoaringArrays.Entry>)
    ensures |e| == |groups|
    ensures forall i :: 0 <= i < |groups| ==> e[i] == RoaringArrays.Entry(groups[i].key, Represent(groups[i].lows))
  {
    seq(|groups|, i requires 0 <= i < |groups| => RoaringArrays.Entry(groups[i].key, Represent(groups[i].lows)))
  }

  /**
    `Create(IEnumerable<int> values)`, and `Create(params int[] values)`
    which calls it: the groups of the pipeline, the `foreach` that lists keys
    and containers and counts them, and then the index built from the lists.
   */
  method Create(values: seq<i32>) returns (rb: RoaringBitmap)
    ensures RoaringArrays.Holds(rb.highLow, Created(values)) && Valid(rb)
  {
    var groupbyHb := Grouped(values);
    var size, keys, containers := ListGroups(groupbyHb);
    var ra := FromLists(size, keys, containers);
    rb := RoaringBitmap(ra);
    RoaringArrays.HoldsValid(ra, Created(values));
  }

  /** The `foreach` of `Create`: a key and a container per group, and their number. */
  method ListGroups(groups: seq<Group>) returns (size: int, keys: seq<u16>, containers: seq<Container>)
    ensures size == |keys| == |containers| && Zip(keys, containers) == Layout(groups)
  {
    keys := [];
    containers := [];
    size := 0;
    for g := 0 to |groups|
      invariant size == g == |keys| == |containers|
      invariant forall j :: 0 <= j < g ==> keys[j] == groups[j].key && containers[j] == Represent(groups[j].lows)
    {
      var group := groups[g];
      keys := keys + [group.key];
      if |group.lows| > MaxSize {
        var c := BitmapContainers.New(|group.lows|, group.lows, false);
        containers := containers + [c];
      } else {
        containers := containers + [ArrayContainers.Create(group.lows)];
      }
      size := size + 1;
    }
  }

  /** The pairs of two parallel lists. */
  function Zip(keys: seq<u16>, containers: seq<Container>): (e: seq<RoaringArrays.Entry>)
    requires |keys| == |containers|
    ensures |e| == |keys| && forall i :: 0 <= i < |keys| ==> e[i] == RoaringArrays.Entry(keys[i], containers[i])
  {
    seq(|keys|, i requires 0 <= i < |keys| => RoaringArrays.Entry(keys[i], containers[i]))
  }

  /**
    The constructor `RoaringArray(size, keys, containers)` that `Create`
    calls, which is not part of this model: it is taken to build the index
    the list constructor builds from the same pairs.
   */
  method FromLists(size: int, keys: seq<u16>, containers: seq<Container>) returns (ra: RoaringArrays.RoaringArray)
    requires size == |keys| == |containers|
    ensures RoaringArrays.Holds(ra, Zip(keys, containers))
  {
    ra := RoaringArrays.New(Some(Zip(keys, containers)));
  }

  /** The low parts of a group strictly increase and lie between `low` and 65535. */
  lemma {:induction false} LowsOrdered(us: seq<int>, key: u16, low: int)
    requires 0 <= low <= MaxCapacity
    ensures Increasing(LowsFrom(us, key, low))
    ensures forall l :: l in LowsFrom(us, key, low) ==> low <= l
    decreases MaxCapacity - low
  {
    if low < MaxCapacity {
      LowsOrdered(us, key, low + 1);
      var rest := LowsFrom(us, key, low + 1);
      if key as int * 0x1_0000 + low in us {
        assert LowsFrom(us, key, low) == [low as u16] + rest;
        IncreasingCons(low, rest);
      } else {
        assert LowsFrom(us, key, low) == rest;
      }
    }
  }

  /** A low part is in the group exactly when the key and it make up one of the unsigned readings. */
  lemma {:induction false} LowsMembers(us: seq<int>, key: u16, low: int, l: int)
    requires 0 <= low <= MaxCapacity
    ensures l in LowsFrom(us, key, low) <==> low <= l < MaxCapacity && key as int * 0x1_0000 + l in us
    decreases MaxCapacity - low
  {
    if low < MaxCapacity {
      LowsMembers(us, key, low + 1, l);
      var rest := LowsFrom(us, key, low + 1);
      if key as int * 0x1_0000 + low in us {
        assert LowsFrom(us, key, low) == [low as u16] + rest;
      } else {
        assert LowsFrom(us, key, low) == rest;
      }
    }
  }

  /** The unsigned readings hold `key * 65536 + low` exactly when the values hold the value the two join to. */
  lemma UnsignedMember(values: seq<i32>, key: u16, low: u16)
    ensures key as int * 0x1_0000 + low as int in RoaringArrays.UnsignedAll(values) <==> Join(key, low) in values
  {
    var us := RoaringArrays.UnsignedAll(values);
    RoaringArrays.UnsignedJoin(key, low);
    if Join(key, low) in values {
      var i :| 0 <= i < |values| && values[i] == Join(key, low);
      assert us[i] == key as int * 0x1_0000 + low as int;
    }
    if key as int * 0x1_0000 + low as int in us {
      var i :| 0 <= i < |us| && us[i] == key as int * 0x1_0000 + low as int;
      UnsignedInjective(values[i], Join(key, low));
    }
  }

  /** A group's container is canonical, non-empty and holds exactly the group's low parts. */
  lemma RepresentSpec(lows: seq<u16>)
    requires Increasing(lows) && |lows| > 0
    ensures Canonical(Represent(lows)) && Represent(lows).cardinality == |lows| > 0
    ensures Elements(Represent(lows)) == lows
  {
    if |lows| > MaxSize {
      assert lows[..|lows|] == lows;
      BitmapContainers.NewSpec(|lows|, lows, false, 0);
    }
  }

  /** The container a key gets: nothing when no value has that key, one pair otherwise. */
  function Piece(us: seq<int>, key: int): (r: seq<RoaringArrays.Entry>)
    requires 0 <= key < MaxCapacity
    ensures r == [] || (|r| == 1 && r[0].key as int == key)
  {
    var lows := LowsFrom(us, key as u16, 0);
    if |lows| > 0 then [RoaringArrays.Entry(key as u16, Represent(lows))] else []
  }

  /** The groups from `key` on are this key's group, if it has one, then the rest. */
  lemma GroupsStep(us: seq<int>, key: int)
    requires 0 <= key < MaxCapacity
    ensures GroupsFrom(us, key) == Head(us, key) + GroupsFrom(us, key + 1)
  {
  }

  /** The group of one key, as a list of at most one group. */
  function Head(us: seq<int>, key: int): (r: seq<Group>)
    requires 0 <= key < MaxCapacity
    ensures |r| <= 1
  {
    var lows := LowsFrom(us, key as u16, 0);
    if |lows| > 0 then [Group(key as u16, lows)] else []
  }

  /** Listing the groups from `key` on is listing this key's piece, then the rest. */
  lemma LayoutStep(us: seq<int>, key: int)
    requires 0 <= key < MaxCapacity
    ensures Layout(GroupsFrom(us, key)) == Piece(us, key) + Layout(GroupsFrom(us, key + 1))
  {
    GroupsStep(us, key);
    LayoutAppend(Head(us, key), GroupsFrom(us, key + 1));
  }

  /** Listing distributes over concatenation of groups. */
  lemma LayoutAppend(a: seq<Group>, b: seq<Group>)
    ensures Layout(a + b) == Layout(a) + Layout(b)
  {
  }

  /** Every container of a piece is valid, canonical and non-empty. */
  lemma PieceCompact(us: seq<int>, key: int)
    requires 0 <= key < MaxCapacity
    ensures RoaringArrays.AllValid(Piece(us, key)) && RoaringArrays.Compact(Piece(us, key))
  {
    var lows := LowsFrom(us, key as u16, 0);
    if |lows| > 0 {
      LowsOrdered(us, key as u16, 0);
      RepresentSpec(lows);
    }
  }

  /** The listed pairs from `key` on are sound and compact, with keys from `key` to 65535. */
  lemma {:induction false} LayoutSound(us: seq<int>, key: int)
    requires 0 <= key <= MaxCapacity
    ensures RoaringArrays.Sound(Layout(GroupsFrom(us, key)))
    ensures RoaringArrays.Compact(Layout(GroupsFrom(us, key)))
    ensures forall k :: k in RoaringArrays.Keys(Layout(GroupsFrom(us, key))) ==> key <= k < MaxCapacity
    decreases MaxCapacity - key
  {
    if key == MaxCapacity {
      assert GroupsFrom(us, key) == [];
    } else {
      LayoutSound(us, key + 1);
      LayoutStep(us, key);
      PieceCompact(us, key);
      var rest := Layout(GroupsFrom(us, key + 1));
      RoaringArrays.PieceSound(Piece(us, key), key, rest);
      RoaringArrays.CompactAppend(Piece(us, key), rest);
    }
  }

  /** The pairs `Create` lists for `values`: sound and compact, with increasing keys and canonical non-empty containers. */
  function Created(values: seq<i32>): (e: seq<RoaringArrays.Entry>)
    ensures RoaringArrays.Sound(e) && RoaringArrays.Compact(e)
  {
    LayoutSound(RoaringArrays.UnsignedAll(values), 0);
    Layout(Grouped(values))
  }

  /** Looking up a key among the listed pairs from `key` on finds the container of its group, if it has one. */
  lemma {:induction false} LayoutFind(us: seq<int>, key: int, k: int)
    requires 0 <= key <= MaxCapacity
    ensures RoaringArrays.Find(Layout(GroupsFrom(us, key)), k) ==
      if key <= k < MaxCapacity && |LowsFrom(us, k as u16, 0)| > 0 then Some(Represent(LowsFrom(us, k as u16, 0))) else None
    decreases MaxCapacity - key
  {
    if key == MaxCapacity {
      assert GroupsFrom(us, key) == [];
    } else {
      LayoutFind(us, key + 1, k);
      LayoutStep(us, key);
      RoaringArrays.FindPiece(Piece(us, key), key, Layout(GroupsFrom(us, key + 1)), k);
    }
  }

  /** `Create(values)` holds the pair `(key, low)` exactly when the value they join to is one of the values. */
  lemma CreateMembers(values: seq<i32>, key: int, low: int)
    ensures RoaringArrays.Has(Created(values), key, low) <==>
      0 <= key < MaxCapacity && 0 <= low < MaxCapacity && Join(key as u16, low as u16) in values
  {
    var us := RoaringArrays.UnsignedAll(values);
    LayoutFind(us, 0, key);
    if 0 <= key < MaxCapacity {
      var lows := LowsFrom(us, key as u16, 0);
      LowsMembers(us, key as u16, 0, low);
      if 0 <= low < MaxCapacity {
        UnsignedMember(values, key as u16, low as u16);
      }
      if |lows| > 0 {
        LowsOrdered(us, key as u16, 0);
        RepresentSpec(lows);
      }
    }
  }

  /** Enumerating `Create(values)` yields exactly the values. */
  lemma CreateEnumerates(values: seq<i32>, v: i32)
    ensures v in RoaringArrays.Enumerate(Created(values)) <==> v in values
  {
    RoaringArrays.EnumerateMembers(Created(values), v);
    CreateMembers(values, HighBits(v), LowBits(v));
    JoinSplit(v);
  }

  /** Reading as unsigned is one-to-one on C# `int`s. */
  lemma UnsignedInjective(a: i32, b: i32)
    ensures RoaringArrays.Unsigned(a) == RoaringArrays.Unsigned(b) ==> a == b
  {
  }

  /** The set of the values of a sequence. */
  function ValueSet(s: seq<i32>): (r: set<i32>)
    ensures forall v :: v in r <==> v in s
    decreases |s|
  {
    if |s| == 0 then {} else {s[0]} + ValueSet(s[1..])
  }

  /** A sequence that strictly increases as unsigned values has as many distinct values as entries. */
  lemma {:induction false} DistinctCount(s: seq<i32>)
    requires Increasing(RoaringArrays.UnsignedAll(s))
    ensures |ValueSet(s)| == |s|
    decreases |s|
  {
    if |s| > 0 {
      var u := RoaringArrays.UnsignedAll(s);
      assert u[1..] == RoaringArrays.UnsignedAll(s[1..]);
      IncreasingTail(u);
      DistinctCount(s[1..]);
      HeadNotInTail(s);
      assert {s[0]} * ValueSet(s[1..]) == {};
    }
  }

  /** The first value of a sequence that strictly increases as unsigned values does not occur again. */
  lemma HeadNotInTail(s: seq<i32>)
    requires |s| > 0 && Increasing(RoaringArrays.UnsignedAll(s))
    ensures s[0] !in s[1..]
  {
    var u := RoaringArrays.UnsignedAll(s);
    forall i | 1 <= i < |s|
      ensures s[i] != s[0]
    {
      assert u[0] < u[i];
    }
  }

  /** Enumerating `Create(values)` yields the distinct values, each once, in increasing unsigned order. */
  lemma CreateDistinct(values: seq<i32>)
    ensures Increasing(RoaringArrays.UnsignedAll(RoaringArrays.Enumerate(Created(values))))
    ensures |RoaringArrays.Enumerate(Created(values))| == |ValueSet(values)|
  {
    var m := RoaringArrays.Enumerate(Created(values));
    RoaringArrays.EnumerateOrdered(Created(values));
    forall v
      ensures v in m <==> v in values
    {
      CreateEnumerates(values, v);
    }
    CountSameValues(m, values);
  }

  /** A sequence without repetitions holding the values of another has as many entries as that one has distinct values. */
  lemma CountSameValues(m: seq<i32>, values: seq<i32>)
    requires Increasing(RoaringArrays.UnsignedAll(m))
    requires forall v :: v in m <==> v in values
    ensures |m| == |ValueSet(values)|
  {
    DistinctCount(m);
    assert ValueSet(m) == ValueSet(values);
  }

  /**
    `Create(values)` enumerates the distinct values in increasing unsigned
    order, and its cardinality is their number (0 for no values).
   */
  lemma CreateCardinality(values: seq<i32>, rb: RoaringBitmap)
    requires RoaringArrays.Holds(rb.highLow, Created(values)) && Valid(rb)
    ensures Increasing(RoaringArrays.UnsignedAll(Members(rb)))
    ensures Cardinality(rb) == |ValueSet(values)|
  {
    assert Pairs(rb) == Created(values);
    CreateDistinct(values);
  }

  /** The low parts under a key depend only on which unsigned readings occur. */
  lemma {:induction false} LowsSame(us: seq<int>, vs: seq<int>, key: u16, low: int)
    requires forall u :: u in us <==> u in vs
    requires 0 <= low <= MaxCapacity
    ensures LowsFrom(us, key, low) == LowsFrom(vs, key, low)
    decreases MaxCapacity - low
  {
    if low < MaxCapacity {
      LowsSame(us, vs, key, low + 1);
      var u := key as int * 0x1_0000 + low;
      assert u in us <==> u in vs;
      assert LowsFrom(us, key, low) == (if u in us then [low as u16] else []) + LowsFrom(us, key, low + 1);
      assert LowsFrom(vs, key, low) == (if u in vs then [low as u16] else []) + LowsFrom(vs, key, low + 1);
    }
  }

  /** So do the groups. */
  lemma {:induction false} GroupsSame(us: seq<int>, vs: seq<int>, key: int)
    requires forall u :: u in us <==> u in vs
    requires 0 <= key <= MaxCapacity
    ensures GroupsFrom(us, key) == GroupsFrom(vs, key)
    decreases MaxCapacity - key
  {
    if key < MaxCapacity {
      GroupsSame(us, vs, key + 1);
      LowsSame(us, vs, key as u16, 0);
      GroupsStep(us, key);
      GroupsStep(vs, key);
    }
  }

  /** Lists with the same values have the same unsigned readings. */
  lemma UnsignedSame(xs: seq<i32>, ys: seq<i32>)
    requires forall v :: v in xs <==> v in ys
    ensures forall u :: u in RoaringArrays.UnsignedAll(xs) <==> u in RoaringArrays.UnsignedAll(ys)
  {
    var us, vs := RoaringArrays.UnsignedAll(xs), RoaringArrays.UnsignedAll(ys);
    forall u | u in us
      ensures u in vs
    {
      var i :| 0 <= i < |us| && us[i] == u;
      assert xs[i] in ys;
      var j :| 0 <= j < |ys| && ys[j] == xs[i];
      assert vs[j] == u;
    }
    forall u | u in vs
      ensures u in us
    {
      var j :| 0 <= j < |vs| && vs[j] == u;
      assert ys[j] in xs;
      var i :| 0 <= i < |xs| && xs[i] == ys[j];
      assert us[i] == u;
    }
  }

  /**
    `Create` of two lists with the same values, in any order and with any
    repetitions, builds the same index, so the bitmaps are `Equals`.
   */
  lemma CreateSameValues(xs: seq<i32>, ys: seq<i32>, x: RoaringBitmap, y: RoaringBitmap)
    requires forall v :: v in xs <==> v in ys
    requires RoaringArrays.Holds(x.highLow, Created(xs)) && Valid(x)
    requires RoaringArrays.Holds(y.highLow, Created(ys)) && Valid(y)
    ensures x == y && RoaringArrays.Equal(x.highLow, y.highLow)
  {
    UnsignedSame(xs, ys);
    GroupsSame(RoaringArrays.UnsignedAll(xs), RoaringArrays.UnsignedAll(ys), 0);
    SameIndex(x.highLow, y.highLow, Created(xs));
  }

  /** Two indexes that hold the same list are the same index, and `Equals` each other. */
  lemma SameIndex(a: RoaringArrays.RoaringArray, b: RoaringArrays.RoaringArray, e: seq<RoaringArrays.Entry>)
    requires RoaringArrays.Holds(a, e) && RoaringArrays.Holds(b, e)
    requires RoaringArrays.ValidArray(a) && RoaringArrays.ValidArray(b)
    ensures a == b && RoaringArrays.Equal(a, b)
  {
    assert a.keys == b.keys by {
      forall i | 0 <= i < |a.keys|
        ensures a.keys[i] == b.keys[i]
      {
        assert RoaringArrays.Entries(a)[i] == RoaringArrays.Entries(b)[i];
      }
    }
    assert a.values == b.values by {
      forall i | 0 <= i < |a.values|
        ensures a.values[i] == b.values[i]
      {
        assert RoaringArrays.Entries(a)[i] == RoaringArrays.Entries(b)[i];
      }
    }
    forall i | 0 <= i < |a.values|
      ensures ContainerDispatch.Same(a.values[i], b.values[i])
    {
      assert a.values[i] == b.values[i];
    }
  }

  // ---------------------------------------------------------------------
  // The delegating members

  /** `Cardinality`: the number of members, counted without wrapping. */
  function Cardinality(rb: RoaringBitmap): (n: int)
    requires Valid(rb)
    ensures n == |Members(rb)|
  {
    RoaringArrays.Cardinality(rb.highLow)
  }

  /** A pair held by one sound list is held by another when every value the first enumerates the second enumerates too. */
  lemma HasFromMembers(a: seq<RoaringArrays.Entry>, b: seq<RoaringArrays.Entry>, k: int, l: int)
    requires RoaringArrays.Sound(a) && RoaringArrays.Sound(b)
    requires forall v :: v in RoaringArrays.Enumerate(a) ==> v in RoaringArrays.Enumerate(b)
    requires RoaringArrays.Has(a, k, l)
    ensures RoaringArrays.Has(b, k, l)
  {
    RoaringArrays.HasBounds(a, k, l);
    var v := Join(k as u16, l as u16);
    SplitJoin(k as u16, l as u16);
    RoaringArrays.EnumerateMembers(a, v);
    RoaringArrays.EnumerateMembers(b, v);
  }

  /** Two sound lists hold the same pairs exactly when they enumerate the same values. */
  lemma SameMembers(a: seq<RoaringArrays.Entry>, b: seq<RoaringArrays.Entry>)
    requires RoaringArrays.Sound(a) && RoaringArrays.Sound(b)
    ensures (forall k, l :: RoaringArrays.Has(a, k, l) <==> RoaringArrays.Has(b, k, l))
        <==> (forall v :: v in RoaringArrays.Enumerate(a) <==> v in RoaringArrays.Enumerate(b))
  {
    if forall v :: v in RoaringArrays.Enumerate(a) <==> v in RoaringArrays.Enumerate(b) {
      SamePairs(a, b);
    }
    if forall k, l :: RoaringArrays.Has(a, k, l) <==> RoaringArrays.Has(b, k, l) {
      forall v
        ensures v in RoaringArrays.Enumerate(a) <==> v in RoaringArrays.Enumerate(b)
      {
        RoaringArrays.EnumerateMembers(a, v);
        RoaringArrays.EnumerateMembers(b, v);
      }
    }
  }

  /** Sound lists that enumerate the same values hold the same pairs. */
  lemma SamePairs(a: seq<RoaringArrays.Entry>, b: seq<RoaringArrays.Entry>)
    requires RoaringArrays.Sound(a) && RoaringArrays.Sound(b)
    requires forall v :: v in RoaringArrays.Enumerate(a) <==> v in RoaringArrays.Enumerate(b)
    ensures forall k, l :: RoaringArrays.Has(a, k, l) <==> RoaringArrays.Has(b, k, l)
  {
    forall k, l | RoaringArrays.Has(a, k, l)
      ensures RoaringArrays.Has(b, k, l)
    {
      HasFromMembers(a, b, k, l);
    }
    forall k, l | RoaringArrays.Has(b, k, l)
      ensures RoaringArrays.Has(a, k, l)
    {
      HasFromMembers(b, a, k, l);
    }
  }

  /**
    `Equals(RoaringBitmap other)`: the indexes' `Equals`.  For bitmaps whose
    containers are canonical and non-empty, as `Create`, `|`, `&` and `~`
    make them, that is equality of the enumerated values.
   */
  method Equals(x: RoaringBitmap, other: RoaringBitmap) returns (r: bool)
    requires Valid(x) && Valid(other)
    ensures r == RoaringArrays.Equal(x.highLow, other.highLow)
    ensures RoaringArrays.Compact(Pairs(x)) && RoaringArrays.Compact(Pairs(other)) ==>
      (r <==> forall v :: v in Members(x) <==> v in Members(other))
  {
    r := RoaringArrays.Equals(x.highLow, other.highLow);
    if RoaringArrays.Compact(Pairs(x)) && RoaringArrays.Compact(Pairs(other)) {
      EqualIffSameMembers(x, other);
    }
  }

  /** For compact bitmaps, the indexes are `Equals` exactly when the bitmaps enumerate the same values. */
  lemma EqualIffSameMembers(x: RoaringBitmap, y: RoaringBitmap)
    requires Valid(x) && Valid(y) && RoaringArrays.Compact(Pairs(x)) && RoaringArrays.Compact(Pairs(y))
    ensures RoaringArrays.Equal(x.highLow, y.highLow) <==> forall v :: v in Members(x) <==> v in Members(y)
  {
    RoaringArrays.EqualsMembers(x.highLow, y.highLow);
    SameMembers(Pairs(x), Pairs(y));
  }

  /** `operator |`: a value is a member of the result exactly when it is a member of either operand. */
  method Or(x: RoaringBitmap, y: RoaringBitmap) returns (r: RoaringBitmap)
    requires Valid(x) && Valid(y)
    ensures Valid(r) && forall v :: v in Members(r) <==> v in Members(x) || v in Members(y)
    ensures RoaringArrays.Compact(Pairs(x)) && RoaringArrays.Compact(Pairs(y)) ==> RoaringArrays.Compact(Pairs(r))
  {
    var ra := RoaringArrays.Or(x.highLow, y.highLow);
    r := RoaringBitmap(ra);
    forall v
      ensures v in Members(r) <==> v in Members(x) || v in Members(y)
    {
      RoaringArrays.EnumerateMembers(Pairs(x), v);
      RoaringArrays.EnumerateMembers(Pairs(y), v);
      RoaringArrays.EnumerateMembers(Pairs(r), v);
      RoaringArrays.OrMembers(Pairs(x), Pairs(y), HighBits(v), LowBits(v));
    }
    if RoaringArrays.Compact(Pairs(x)) && RoaringArrays.Compact(Pairs(y)) {
      RoaringArrays.OrCompact(Pairs(x), Pairs(y));
    }
  }

  /** `operator &`: a value is a member of the result exactly when it is a member of both operands. */
  method And(x: RoaringBitmap, y: RoaringBitmap) returns (r: RoaringBitmap)
    requires Valid(x) && Valid(y)
    ensures Valid(r) && forall v :: v in Members(r) <==> v in Members(x) && v in Members(y)
    ensures RoaringArrays.Compact(Pairs(x)) && RoaringArrays.Compact(Pairs(y)) ==> RoaringArrays.Compact(Pairs(r))
  {
    var ra := RoaringArrays.And(x.highLow, y.highLow);
    r := RoaringBitmap(ra);
    forall v
      ensures v in Members(r) <==> v in Members(x) && v in Members(y)
    {
      RoaringArrays.EnumerateMembers(Pairs(x), v);
      RoaringArrays.EnumerateMembers(Pairs(y), v);
      RoaringArrays.EnumerateMembers(Pairs(r), v);
      RoaringArrays.AndMembers(Pairs(x), Pairs(y), HighBits(v), LowBits(v));
    }
    if RoaringArrays.Compact(Pairs(x)) && RoaringArrays.Compact(Pairs(y)) {
      RoaringArrays.MeetCompact(Pairs(x), Pairs(y));
    }
  }

  /** `operator ^`: a value is a member of the result exactly when it is a member of one operand only. */
  method Xor(x: RoaringBitmap, y: RoaringBitmap) returns (r: RoaringBitmap)
    requires Valid(x) && Valid(y)
    ensures Valid(r) && forall v :: v in Members(r) <==> ((v in Members(x)) != (v in Members(y)))
  {
    var ra := RoaringArrays.Xor(x.highLow, y.highLow);
    r := RoaringBitmap(ra);
    forall v
      ensures v in Members(r) <==> ((v in Members(x)) != (v in Members(y)))
    {
      RoaringArrays.EnumerateMembers(Pairs(x), v);
      RoaringArrays.EnumerateMembers(Pairs(y), v);
      RoaringArrays.EnumerateMembers(Pairs(r), v);
      RoaringArrays.XorMembers(Pairs(x), Pairs(y), HighBits(v), LowBits(v));
    }
  }

  /**
    `operator ~`: a value is a member of the result exactly when it is not a
    member of the operand and its high bits are not 65535, the key the loop
    of the index's `~` stops short of.
   */
  method Not(x: RoaringBitmap) returns (r: RoaringBitmap)
    requires Valid(x)
    ensures Valid(r) && forall v :: v in Members(r) <==> HighBits(v) < RoaringArrays.UShortMax && v !in Members(x)
    ensures RoaringArrays.Compact(Pairs(x)) ==> RoaringArrays.Compact(Pairs(r))
  {
    var ra := RoaringArrays.Not(x.highLow);
    r := RoaringBitmap(ra);
    forall v
      ensures v in Members(r) <==> HighBits(v) < RoaringArrays.UShortMax && v !in Members(x)
    {
      RoaringArrays.EnumerateMembers(Pairs(x), v);
      RoaringArrays.EnumerateMembers(Pairs(r), v);
      RoaringArrays.NotMembers(Pairs(x), RoaringArrays.UShortMax, HighBits(v), LowBits(v));
    }
    if RoaringArrays.Compact(Pairs(x)) {
      RoaringArrays.ComplementCompact(Pairs(x), 0, RoaringArrays.UShortMax);
    }
  }

  /**
    Complementing twice gives back the same enumeration, value for value and
    in the same order, when no member has the high bits 65535.
   */
  lemma NotNot(x: RoaringBitmap, n: RoaringBitmap, nn: RoaringBitmap)
    requires Valid(x) && Valid(n) && Valid(nn)
    requires forall v :: v in Members(x) ==> HighBits(v) < RoaringArrays.UShortMax
    requires forall v :: v in Members(n) <==> HighBits(v) < RoaringArrays.UShortMax && v !in Members(x)
    requires forall v :: v in Members(nn) <==> HighBits(v) < RoaringArrays.UShortMax && v !in Members(n)
    ensures Members(nn) == Members(x)
  {
    SameEnumeration(nn, x);
  }

  /** Two valid bitmaps with the same members enumerate them in the same order. */
  lemma SameEnumeration(x: RoaringBitmap, y: RoaringBitmap)
    requires Valid(x) && Valid(y)
    requires forall v :: v in Members(x) <==> v in Members(y)
    ensures Members(x) == Members(y)
  {
    var a := Members(x);
    var b := Members(y);
    RoaringArrays.EnumerateOrdered(Pairs(x));
    RoaringArrays.EnumerateOrdered(Pairs(y));
    var ua := RoaringArrays.UnsignedAll(a);
    var ub := RoaringArrays.UnsignedAll(b);
    forall u
      ensures u in ua <==> u in ub
    {
      if u in ua {
        var i :| 0 <= i < |ua| && ua[i] == u;
        assert a[i] in b;
        var j :| 0 <= j < |b| && b[j] == a[i];
        assert ub[j] == u;
      }
      if u in ub {
        var j :| 0 <= j < |ub| && ub[j] == u;
        assert b[j] in a;
        var i :| 0 <= i < |a| && a[i] == b[j];
        assert ua[i] == u;
      }
    }
    IncreasingExt(ua, ub);
    forall i | 0 <= i < |a|
      ensures a[i] == b[i]
    {
      assert ua[i] == ub[i];
      UnsignedInjective(a[i], b[i]);
    }
  }
}
