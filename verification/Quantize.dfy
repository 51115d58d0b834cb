/** Colour quantization by median cut (quantize.c). */
module Quantize {
  import opened Bits
  import opened GifFormat

  const COLOR_ARRAY_SIZE: nat := 32768
  const ULONG: nat := 0x1_0000_0000
  const NULL: int := -1

  /** A colour of 15 bits is named by its index in the colour array.  This is one of its three parts. */
  function RGB(e: nat, axis: nat): nat
    requires e < COLOR_ARRAY_SIZE && axis < 3
  {
    if axis == 0 then e / 1024 else if axis == 1 then e / 32 % 32 else e % 32
  }

  /** Scaled to 8 bits. */
  function Scaled(e: nat, axis: nat): (v: nat)
    requires e < COLOR_ARRAY_SIZE && axis < 3
    ensures v <= 248
  {
    RGB(e, axis) * 8
  }

  /** A cube of the colour space, with the list of its colours. */
  datatype Cube = Cube(rgbMin: seq<nat>, rgbWidth: seq<nat>, numEntries: nat, count: nat, quantizedColors: int)

  // ----- sorting

  /** What SortCmpRtn compares. */
  function SortKey(axis: nat, e: nat): nat
    requires e < COLOR_ARRAY_SIZE && axis < 3
  {
    RGB(e, axis) * 0x1_0000 + RGB(e, (axis + 1) % 3) * 0x100 + RGB(e, (axis + 2) % 3)
  }

  predicate AreColors(s: seq<nat>) { forall k :: 0 <= k < |s| ==> s[k] < COLOR_ARRAY_SIZE }

  function Insert(axis: nat, e: nat, s: seq<nat>): (r: seq<nat>)
    requires axis < 3 && e < COLOR_ARRAY_SIZE && AreColors(s)
    ensures |r| == |s| + 1 && AreColors(r)
  {
    if s == [] || SortKey(axis, e) <= SortKey(axis, s[0]) then [e] + s
    else [s[0]] + Insert(axis, e, s[1..])
  }

  /** qsort with SortCmpRtn. */
  function Sort(axis: nat, s: seq<nat>): (r: seq<nat>)
    requires axis < 3 && AreColors(s)
    ensures |r| == |s| && AreColors(r)
  {
    if s == [] then [] else Insert(axis, s[0], Sort(axis, s[1..]))
  }

  ghost predicate Distinct(s: seq<nat>) { forall k, l :: 0 <= k < l < |s| ==> s[k] != s[l] }

  ghost predicate Sorted(axis: nat, s: seq<nat>)
    requires axis < 3 && AreColors(s)
  {
    forall k, l :: 0 <= k < l < |s| ==> SortKey(axis, s[k]) <= SortKey(axis, s[l])
  }

  lemma {:induction false} InsertSorts(axis: nat, e: nat, s: seq<nat>)
    requires axis < 3 && e < COLOR_ARRAY_SIZE && AreColors(s) && Sorted(axis, s) && Distinct(s) && e !in s
    ensures Sorted(axis, Insert(axis, e, s)) && Distinct(Insert(axis, e, s))
    ensures forall x :: x in Insert(axis, e, s) <==> x == e || x in s
  {
    hide SortKey, Sorted, Distinct;
    if s != [] && SortKey(axis, e) > SortKey(axis, s[0]) {
      var r := Insert(axis, e, s[1..]);
      SortedTail(axis, s);
      InsertSorts(axis, e, s[1..]);
      assert s == [s[0]] + s[1..];
      forall x | x in r
        ensures SortKey(axis, s[0]) <= SortKey(axis, x) && x != s[0]
      {
      }
      SortedFront(axis, s[0], r);
    } else {
      SortedFirst(axis, e, s);
    }
  }

  lemma SortedTail(axis: nat, s: seq<nat>)
    requires axis < 3 && AreColors(s) && Sorted(axis, s) && Distinct(s) && s != []
    ensures Sorted(axis, s[1..]) && Distinct(s[1..])
    ensures forall x :: x in s[1..] ==> SortKey(axis, s[0]) <= SortKey(axis, x) && x != s[0]
  {
    hide SortKey;
  }

  lemma SortedFront(axis: nat, e: nat, s: seq<nat>)
    requires axis < 3 && e < COLOR_ARRAY_SIZE && AreColors(s) && Sorted(axis, s) && Distinct(s)
    requires forall x :: x in s ==> SortKey(axis, e) <= SortKey(axis, x) && x != e
    ensures Sorted(axis, [e] + s) && Distinct([e] + s)
  {
    hide SortKey;
    forall k | 0 <= k < |s|
      ensures SortKey(axis, e) <= SortKey(axis, s[k]) && s[k] != e
    {
      assert s[k] in s;
    }
  }

  lemma SortedFirst(axis: nat, e: nat, s: seq<nat>)
    requires axis < 3 && e < COLOR_ARRAY_SIZE && AreColors(s) && Sorted(axis, s) && Distinct(s) && e !in s
    requires s != [] ==> SortKey(axis, e) <= SortKey(axis, s[0])
    ensures Sorted(axis, [e] + s) && Distinct([e] + s)
  {
    hide SortKey;
    forall x | x in s
      ensures SortKey(axis, e) <= SortKey(axis, x) && x != e
    {
      var k :| 0 <= k < |s| && s[k] == x;
      assert SortKey(axis, s[0]) <= SortKey(axis, s[k]);
    }
    SortedFront(axis, e, s);
  }

  /** Sorting keeps the colours. */
  lemma {:induction false} SortSorts(axis: nat, s: seq<nat>)
    requires axis < 3 && AreColors(s) && Distinct(s)
    ensures Sorted(axis, Sort(axis, s)) && Distinct(Sort(axis, s))
    ensures forall x :: x in Sort(axis, s) <==> x in s
  {
    if s != [] {
      SortSorts(axis, s[1..]);
      InsertSorts(axis, s[0], Sort(axis, s[1..]));
      assert s == [s[0]] + s[1..];
    }
  }

  /** Colours are compared by their part along the axis, then by the next one, and then by the third. */
  ghost predicate InOrder(axis: nat, e: nat, f: nat)
    requires axis < 3 && e < COLOR_ARRAY_SIZE && f < COLOR_ARRAY_SIZE
  {
    var second, third := if axis == 2 then 0 else axis + 1, if axis == 0 then 2 else axis - 1;
    || RGB(e, axis) < RGB(f, axis)
    || (RGB(e, axis) == RGB(f, axis) && RGB(e, second) < RGB(f, second))
    || (RGB(e, axis) == RGB(f, axis) && RGB(e, second) == RGB(f, second) && RGB(e, third) <= RGB(f, third))
  }

  lemma KeyOrder(axis: nat, e: nat, f: nat)
    requires axis < 3 && e < COLOR_ARRAY_SIZE && f < COLOR_ARRAY_SIZE
    ensures SortKey(axis, e) <= SortKey(axis, f) <==> InOrder(axis, e, f)
  {
    hide RGB;
    RgbSmall(e);
    RgbSmall(f);
  }

  /** The key tells any two colours apart, */
  lemma KeysDiffer(axis: nat, a: nat, b: nat)
    requires axis < 3 && a < COLOR_ARRAY_SIZE && b < COLOR_ARRAY_SIZE && SortKey(axis, a) == SortKey(axis, b)
    ensures a == b
  {
    hide RGB;
    RgbSmall(a);
    RgbSmall(b);
    KeyDigits(RGB(a, axis), RGB(a, (axis + 1) % 3), RGB(a, (axis + 2) % 3),
              RGB(b, axis), RGB(b, (axis + 1) % 3), RGB(b, (axis + 2) % 3));
    FromRgb(a);
    FromRgb(b);
  }

  lemma KeyDigits(a: nat, b: nat, c: nat, d: nat, e: nat, f: nat)
    requires b < 0x100 && c < 0x100 && e < 0x100 && f < 0x100
    requires a * 0x1_0000 + b * 0x100 + c == d * 0x1_0000 + e * 0x100 + f
    ensures a == d && b == e && c == f
  {
  }

  lemma FromRgb(e: nat)
    requires e < COLOR_ARRAY_SIZE
    ensures e == RGB(e, 0) * 1024 + RGB(e, 1) * 32 + RGB(e, 2)
  {
    assert e / 1024 == e / 32 / 32;
  }

  /** so there is one way to sort, whatever qsort does. */
  lemma SortUnique(axis: nat, s: seq<nat>, r: seq<nat>)
    requires axis < 3 && AreColors(s) && Distinct(s) && AreColors(r) && Distinct(r) && Sorted(axis, r)
    requires forall x :: x in r <==> x in s
    ensures r == Sort(axis, s)
  {
    SortSorts(axis, s);
    SortedEqual(axis, r, Sort(axis, s));
  }

  lemma {:induction false} SortedEqual(axis: nat, a: seq<nat>, b: seq<nat>)
    requires axis < 3 && AreColors(a) && Distinct(a) && Sorted(axis, a)
    requires AreColors(b) && Distinct(b) && Sorted(axis, b)
    requires forall x :: x in a <==> x in b
    ensures a == b
  {
    hide SortKey;
    assert (a != [] ==> a[0] in b) && (b != [] ==> b[0] in a);
    if a != [] {
      KeysDiffer(axis, a[0], b[0]);
      Rest(a);
      Rest(b);
      SortedEqual(axis, a[1..], b[1..]);
    }
  }

  lemma Rest(s: seq<nat>)
    requires s != [] && Distinct(s)
    ensures Distinct(s[1..]) && forall x :: x in s[1..] <==> x in s && x != s[0]
  {
  }

  lemma SortedByAxis(axis: nat, s: seq<nat>, k: nat, l: nat)
    requires axis < 3 && AreColors(s) && Sorted(axis, s) && k <= l < |s|
    ensures RGB(s[k], axis) <= RGB(s[l], axis)
  {
    assert k < l ==> SortKey(axis, s[k]) <= SortKey(axis, s[l]);
    RgbSmall(s[k]);
    RgbSmall(s[l]);
  }

  lemma RgbSmall(e: nat)
    requires e < COLOR_ARRAY_SIZE
    ensures RGB(e, 0) < 32 && RGB(e, 1) < 32 && RGB(e, 2) < 32
  {
  }

  // ----- the cubes

  /** What comes after the k-th colour of a list. */
  function Follower(list: seq<nat>, k: nat): int { if k + 1 < |list| then list[k + 1] else NULL }

  /** The same when the list has been cut before its n-th colour. */
  function FollowerCut(list: seq<nat>, n: nat, k: nat): int { if k + 1 == n then NULL else Follower(list, k) }

  /** The cube's list, linked through `next`, holds these colours. */
  ghost predicate Linked(c: Cube, next: seq<int>, list: seq<nat>) {
    && list != [] && |list| == c.numEntries && c.quantizedColors == list[0]
    && |next| == COLOR_ARRAY_SIZE && AreColors(list)
    && forall k :: 0 <= k < |list| ==> next[list[k]] == Follower(list, k)
  }

  /** All colours of a list lie in the cube's box. */
  ghost predicate Boxed(c: Cube, list: seq<nat>) {
    && |c.rgbMin| == |c.rgbWidth| == 3 && AreColors(list)
    && (forall j :: 0 <= j < 3 ==> c.rgbMin[j] + c.rgbWidth[j] <= 255)
    && (forall k, j :: 0 <= k < |list| && 0 <= j < 3 ==>
      c.rgbMin[j] <= Scaled(list[k], j) <= c.rgbMin[j] + c.rgbWidth[j])
  }

  ghost function Total(lists: seq<seq<nat>>): nat {
    if lists == [] then 0 else Total(lists[..|lists| - 1]) + |lists[|lists| - 1]|
  }

  ghost predicate Somewhere(lists: seq<seq<nat>>, e: nat) { exists i :: 0 <= i < |lists| && e in lists[i] }

  /** The lists hold every sampled colour once. */
  ghost predicate Partition(lists: seq<seq<nat>>, sampled: seq<nat>) {
    && Total(lists) == |sampled|
    && (forall i :: 0 <= i < |lists| ==> Distinct(lists[i]))
    && (forall i, j, e :: 0 <= i < j < |lists| && e in lists[i] ==> e !in lists[j])
    && (forall e :: e in sampled <==> Somewhere(lists, e))
  }

  ghost predicate Cut(cubes: seq<Cube>, next: seq<int>, lists: seq<seq<nat>>, sampled: seq<nat>) {
    && |cubes| == |lists| && Partition(lists, sampled)
    && (forall i :: 0 <= i < |lists| ==> Linked(cubes[i], next, lists[i]) && Boxed(cubes[i], lists[i]))
  }

  lemma {:induction false} TotalUpdate(lists: seq<seq<nat>>, i: nat, l: seq<nat>)
    requires i < |lists|
    ensures Total(lists[i := l]) == Total(lists) - |lists[i]| + |l|
  {
    var n := |lists| - 1;
    if i == n {
      assert lists[i := l][..n] == lists[..n];
    } else {
      TotalUpdate(lists[..n], i, l);
      assert lists[i := l][..n] == lists[..n][i := l];
    }
  }

  lemma Halves(s: seq<nat>, n: nat)
    requires Distinct(s) && n <= |s|
    ensures Distinct(s[..n]) && Distinct(s[n..])
    ensures forall e :: (e in s <==> e in s[..n] || e in s[n..]) && !(e in s[..n] && e in s[n..])
  {
    assert s == s[..n] + s[n..];
  }

  /** Cutting a list in two keeps the partition. */
  lemma PartitionSplit(lists: seq<seq<nat>>, sampled: seq<nat>, i: nat, s: seq<nat>, n: nat)
    requires Partition(lists, sampled) && i < |lists| && n <= |s| == |lists[i]|
    requires Distinct(s) && forall e :: e in s <==> e in lists[i]
    ensures Partition(lists[i := s[..n]] + [s[n..]], sampled)
  {
    var lists' := lists[i := s[..n]] + [s[n..]];
    TotalUpdate(lists, i, s[..n]);
    assert lists'[..|lists|] == lists[i := s[..n]];
    Halves(s, n);
    forall e
      ensures Somewhere(lists', e) <==> Somewhere(lists, e)
    {
      if a :| 0 <= a < |lists| && e in lists[a] {
        assert e in lists'[if a == i && e in s[n..] then |lists| else a];
      }
      if b :| 0 <= b < |lists'| && e in lists'[b] {
        assert e in lists[if b == |lists| then i else b];
      }
    }
  }

  /** The first half of a cube that is cut along an axis before the n-th colour of its sorted list, */
  function FirstHalf(c: Cube, axis: nat, s: seq<nat>, n: nat, count: nat): Cube
    requires axis < 3 && AreColors(s) && 0 < n < |s|
    requires |c.rgbMin| == |c.rgbWidth| == 3 && c.rgbMin[axis] <= Scaled(s[n - 1], axis)
  {
    Cube(c.rgbMin, c.rgbWidth[axis := Scaled(s[n - 1], axis) - c.rgbMin[axis]], n, count, s[0])
  }

  /** and the second. */
  function SecondHalf(c: Cube, axis: nat, s: seq<nat>, n: nat, count: nat): Cube
    requires axis < 3 && AreColors(s) && 0 < n < |s| && |c.rgbMin| == |c.rgbWidth| == 3
    requires Scaled(s[n], axis) <= c.rgbMin[axis] + c.rgbWidth[axis]
  {
    Cube(c.rgbMin[axis := Scaled(s[n], axis)],
         c.rgbWidth[axis := c.rgbMin[axis] + c.rgbWidth[axis] - Scaled(s[n], axis)],
         |s| - n, count, s[n])
  }

  lemma BoxedColor(c: Cube, list: seq<nat>, e: nat, axis: nat)
    requires Boxed(c, list) && e in list && axis < 3
    ensures e < COLOR_ARRAY_SIZE && c.rgbMin[axis] <= Scaled(e, axis) <= c.rgbMin[axis] + c.rgbWidth[axis] <= 255
  {
  }

  lemma HalvesBoxed(c: Cube, list: seq<nat>, axis: nat, s: seq<nat>, n: nat, count1: nat, count2: nat)
    requires axis < 3 && Boxed(c, list) && AreColors(s) && Sorted(axis, s) && 0 < n < |s|
    requires forall e :: e in s <==> e in list
    ensures c.rgbMin[axis] <= Scaled(s[n - 1], axis) && Boxed(FirstHalf(c, axis, s, n, count1), s[..n])
    ensures Scaled(s[n], axis) <= c.rgbMin[axis] + c.rgbWidth[axis] && Boxed(SecondHalf(c, axis, s, n, count2), s[n..])
  {
    hide Boxed, RGB;
    BoxedColor(c, list, s[n - 1], axis);
    BoxedColor(c, list, s[n], axis);
    BoxShape(c, list);
    FirstHalfBoxed(c, list, axis, s, n, count1);
    SecondHalfBoxed(c, list, axis, s, n, count2);
  }

  lemma BoxShape(c: Cube, list: seq<nat>)
    requires Boxed(c, list)
    ensures |c.rgbMin| == |c.rgbWidth| == 3
  {
  }

  lemma FirstHalfBoxed(c: Cube, list: seq<nat>, axis: nat, s: seq<nat>, n: nat, count: nat)
    requires axis < 3 && Boxed(c, list) && AreColors(s) && Sorted(axis, s) && 0 < n < |s|
    requires forall e :: e in s <==> e in list
    requires c.rgbMin[axis] <= Scaled(s[n - 1], axis)
    ensures Boxed(FirstHalf(c, axis, s, n, count), s[..n])
  {
    hide RGB;
    forall k, j | 0 <= k < n && 0 <= j < 3
      ensures c.rgbMin[j] <= Scaled(s[k], j) <= c.rgbMin[j] + c.rgbWidth[j] && RGB(s[k], axis) <= RGB(s[n - 1], axis)
    {
      assert s[k] in s;
      BoxedColor(c, list, s[k], j);
      SortedByAxis(axis, s, k, n - 1);
    }
  }

  lemma SecondHalfBoxed(c: Cube, list: seq<nat>, axis: nat, s: seq<nat>, n: nat, count: nat)
    requires axis < 3 && Boxed(c, list) && AreColors(s) && Sorted(axis, s) && 0 < n < |s|
    requires forall e :: e in s <==> e in list
    requires Scaled(s[n], axis) <= c.rgbMin[axis] + c.rgbWidth[axis]
    ensures Boxed(SecondHalf(c, axis, s, n, count), s[n..])
  {
    hide RGB;
    forall k, j | n <= k < |s| && 0 <= j < 3
      ensures c.rgbMin[j] <= Scaled(s[k], j) <= c.rgbMin[j] + c.rgbWidth[j] && RGB(s[n], axis) <= RGB(s[k], axis)
    {
      assert s[k] in s;
      BoxedColor(c, list, s[k], j);
      SortedByAxis(axis, s, n, k);
    }
  }

  /** After a split the lists are linked, boxed and a partition again. */
  lemma {:induction false} CutSplit(cubes: seq<Cube>, next: seq<int>, lists: seq<seq<nat>>, sampled: seq<nat>,
                                    i: nat, axis: nat,
                                    s: seq<nat>, n: nat, next': seq<int>, count1: nat, count2: nat)
    requires Cut(cubes, next, lists, sampled) && i < |lists| && axis < 3 && s == Sort(axis, lists[i]) && 0 < n < |s|
    requires |next'| == COLOR_ARRAY_SIZE && forall k :: 0 <= k < |s| ==> next'[s[k]] == FollowerCut(s, n, k)
    requires forall e :: 0 <= e < COLOR_ARRAY_SIZE && e !in s ==> next'[e] == next[e]
    ensures var c := cubes[i];
      && |c.rgbMin| == |c.rgbWidth| == 3
      && c.rgbMin[axis] <= Scaled(s[n - 1], axis) && Scaled(s[n], axis) <= c.rgbMin[axis] + c.rgbWidth[axis]
      && Cut(cubes[i := FirstHalf(c, axis, s, n, count1)] + [SecondHalf(c, axis, s, n, count2)], next',
             lists[i := s[..n]] + [s[n..]], sampled)
  {
    hide Boxed, Sort, Sorted, RGB, Scaled, Total, Follower, FollowerCut, Linked;
    ListShaped(cubes, next, lists, sampled, i);
    var c := cubes[i];
    SortSorts(axis, lists[i]);
    HalvesBoxed(c, lists[i], axis, s, n, count1, count2);
    BoxShape(c, lists[i]);
    PartitionSplit(lists, sampled, i, s, n);
    HalvesLinked(c, axis, next', s, n, count1, count2);
    forall j | 0 <= j < |lists| && j != i
      ensures Linked(cubes[j], next', lists[j])
    {
      StillLinked(cubes[j], next, next', lists, i, j, s);
    }
  }

  lemma HalvesLinked(c: Cube, axis: nat, next: seq<int>, s: seq<nat>, n: nat, count1: nat, count2: nat)
    requires axis < 3 && AreColors(s) && 0 < n < |s| && |c.rgbMin| == |c.rgbWidth| == 3 && |next| == COLOR_ARRAY_SIZE
    requires c.rgbMin[axis] <= Scaled(s[n - 1], axis) && Scaled(s[n], axis) <= c.rgbMin[axis] + c.rgbWidth[axis]
    requires forall k :: 0 <= k < |s| ==> next[s[k]] == FollowerCut(s, n, k)
    ensures Linked(FirstHalf(c, axis, s, n, count1), next, s[..n])
    ensures Linked(SecondHalf(c, axis, s, n, count2), next, s[n..])
  {
    hide Scaled;
  }

  lemma StillLinked(c: Cube, next: seq<int>, next': seq<int>, lists: seq<seq<nat>>, i: nat, j: nat, s: seq<nat>)
    requires i < |lists| && j < |lists| && i != j && Linked(c, next, lists[j]) && |next'| == COLOR_ARRAY_SIZE
    requires forall a, b, e :: 0 <= a < b < |lists| && e in lists[a] ==> e !in lists[b]
    requires forall e :: e in s <==> e in lists[i]
    requires forall e :: 0 <= e < COLOR_ARRAY_SIZE && e !in s ==> next'[e] == next[e]
    ensures Linked(c, next', lists[j])
  {
    hide Follower;
    forall k | 0 <= k < |lists[j]|
      ensures next'[lists[j][k]] == next[lists[j][k]]
    {
      assert lists[j][k] in lists[j];
    }
  }

  // ----- the code

  /** How many pixels the colours of a list stand for. */
  function Weight(counts: seq<nat>, s: seq<nat>): nat
    requires |counts| == COLOR_ARRAY_SIZE && AreColors(s)
  {
    if s == [] then 0 else Weight(counts, s[..|s| - 1]) + counts[s[|s| - 1]]
  }

  /** n colours are as many as `half` pixels allow, but at least one, and all but one at most. */
  ghost predicate IsMedian(counts: seq<nat>, s: seq<nat>, half: nat, n: nat)
    requires |counts| == COLOR_ARRAY_SIZE && AreColors(s)
  {
    && 0 < n < |s| && (n > 1 ==> Weight(counts, s[..n]) <= half)
    && (n + 1 < |s| ==> Weight(counts, s[..n + 1]) > half)
  }

  /** The cubes, and the lists of their colours. */
  datatype Stage = Stage(cubes: seq<Cube>, lists: seq<seq<nat>>)

  /** The widest side of any cube that can still be cut, and the first of these. */
  ghost predicate Widest(cubes: seq<Cube>, index: nat, axis: nat) {
    && index < |cubes| && axis < 3 && cubes[index].numEntries > 1
    && (forall i :: 0 <= i < |cubes| ==> |cubes[i].rgbWidth| == 3)
    && forall i, j :: 0 <= i < |cubes| && 0 <= j < 3 && cubes[i].numEntries > 1 ==>
      && cubes[i].rgbWidth[j] <= cubes[index].rgbWidth[axis]
      && (i < index || (i == index && j < axis) ==> cubes[i].rgbWidth[j] < cubes[index].rgbWidth[axis])
  }

  /** The list of a cube has been sorted along an axis, and list and cube are cut in two before the n-th colour, which
      is the median. */
  ghost predicate CutBefore(st: Stage, st': Stage, i: nat, axis: nat, counts: seq<nat>, n: nat) {
    && i < |st.cubes| == |st.lists| && axis < 3 && AreColors(st.lists[i]) && |counts| == COLOR_ARRAY_SIZE
    && var c, s := st.cubes[i], Sort(axis, st.lists[i]);
    && IsMedian(counts, s, c.count / 2, n) && |c.rgbMin| == |c.rgbWidth| == 3
    && c.rgbMin[axis] <= Scaled(s[n - 1], axis) && Scaled(s[n], axis) <= c.rgbMin[axis] + c.rgbWidth[axis]
    && var w := Weight(counts, s[..n]);
    && st'.cubes == st.cubes[i := FirstHalf(c, axis, s, n, (c.count - w) % ULONG)] + [SecondHalf(c, axis, s, n, w)]
    && st'.lists == st.lists[i := s[..n]] + [s[n..]]
  }

  /** After a cut the colours of the two lists are in order; the boxes of the two cubes end exactly at the colours at
      the cut, and are as before on all other sides.  The second cube is given the number of pixels of the first. */
  lemma HalvesTight(st: Stage, st': Stage, i: nat, axis: nat, counts: seq<nat>, n: nat)
    requires CutBefore(st, st', i, axis, counts, n) && Distinct(st.lists[i])
    ensures |st'.cubes| == |st.cubes| + 1 && |st'.lists| == |st.lists| + 1
    ensures forall k :: 0 <= k < |st.cubes| && k != i ==> st'.cubes[k] == st.cubes[k] && st'.lists[k] == st.lists[k]
    ensures var c, a, b := st.cubes[i], st'.cubes[i], st'.cubes[|st.cubes|];
      var front, back := st'.lists[i], st'.lists[|st.lists|];
      && |front| == n > 0 && back != [] && AreColors(front + back)
      && (forall e :: e in front + back <==> e in st.lists[i])
      && (forall k, l :: 0 <= k < l < |front + back| ==> InOrder(axis, (front + back)[k], (front + back)[l]))
      && Beside(c, a, axis) && Beside(c, b, axis)
      && a.rgbMin[axis] == c.rgbMin[axis] && a.rgbMin[axis] + a.rgbWidth[axis] == Scaled(front[n - 1], axis)
      && b.rgbMin[axis] == Scaled(back[0], axis)
      && b.rgbMin[axis] + b.rgbWidth[axis] == c.rgbMin[axis] + c.rgbWidth[axis]
      && a.numEntries == |front| && a.quantizedColors == front[0]
      && b.numEntries == |back| && b.quantizedColors == back[0]
      && b.count == Weight(counts, front) && a.count == (c.count - b.count) % 0x1_0000_0000
  {
    hide RGB, SortKey, IsMedian, Weight, Sort, InOrder, Scaled, Distinct;
    var s := Sort(axis, st.lists[i]);
    SortSorts(axis, st.lists[i]);
    MedianInside(counts, s, st.cubes[i].count / 2, n);
    assert s[..n] + s[n..] == s;
    forall k, l | 0 <= k < l < |s|
      ensures InOrder(axis, s[k], s[l])
    {
      KeyOrder(axis, s[k], s[l]);
    }
  }

  /** The same box but for its extent along an axis. */
  ghost predicate Beside(c: Cube, a: Cube, axis: nat) {
    && |c.rgbMin| == |c.rgbWidth| == |a.rgbMin| == |a.rgbWidth| == 3
    && forall j :: 0 <= j < 3 && j != axis ==> a.rgbMin[j] == c.rgbMin[j] && a.rgbWidth[j] == c.rgbWidth[j]
  }

  ghost predicate Halved(st: Stage, st': Stage, i: nat, axis: nat, counts: seq<nat>) {
    exists n: nat :: CutBefore(st, st', i, axis, counts, n)
  }

  lemma HalvedAt(st: Stage, i: nat, axis: nat, counts: seq<nat>, c: Cube, s: seq<nat>, n: nat, w: nat)
    requires i < |st.cubes| == |st.lists| && axis < 3 && AreColors(st.lists[i]) && |counts| == COLOR_ARRAY_SIZE
    requires c == st.cubes[i] && s == Sort(axis, st.lists[i]) && IsMedian(counts, s, c.count / 2, n)
    requires w == Weight(counts, s[..n]) && |c.rgbMin| == |c.rgbWidth| == 3
    requires c.rgbMin[axis] <= Scaled(s[n - 1], axis) && Scaled(s[n], axis) <= c.rgbMin[axis] + c.rgbWidth[axis]
    ensures Halved(st, Stage(st.cubes[i := FirstHalf(c, axis, s, n, (c.count - w) % ULONG)]
                             + [SecondHalf(c, axis, s, n, w)], st.lists[i := s[..n]] + [s[n..]]), i, axis, counts)
  {
    hide FirstHalf, SecondHalf, Sort, Scaled, Weight;
    assert CutBefore(st, Stage(st.cubes[i := FirstHalf(c, axis, s, n, (c.count - w) % ULONG)]
                               + [SecondHalf(c, axis, s, n, w)], st.lists[i := s[..n]] + [s[n..]]), i, axis, counts, n);
  }

  /** One turn of SubdivColorMap. */
  ghost predicate Subdivision(st: Stage, st': Stage, counts: seq<nat>) {
    exists i: nat, axis: nat :: Widest(st.cubes, i, axis) && Halved(st, st', i, axis, counts)
  }

  ghost predicate Subdivided(trace: seq<Stage>, counts: seq<nat>) {
    forall k :: 0 < k < |trace| ==> Subdivision(trace[k - 1], trace[k], counts)
  }

  lemma OneTurn(st: Stage, st': Stage, i: nat, axis: nat, counts: seq<nat>)
    requires Widest(st.cubes, i, axis) && Halved(st, st', i, axis, counts)
    ensures Subdivision(st, st', counts)
  {
  }

  lemma {:induction false} WeightGrows(counts: seq<nat>, s: seq<nat>, n: nat, m: nat)
    requires |counts| == COLOR_ARRAY_SIZE && AreColors(s) && n <= m <= |s|
    ensures Weight(counts, s[..n]) <= Weight(counts, s[..m])
    decreases m - n
  {
    if n < m {
      assert s[..m][..m - 1] == s[..m - 1];
      WeightGrows(counts, s, n, m - 1);
    }
  }

  lemma MedianInside(counts: seq<nat>, s: seq<nat>, half: nat, n: nat)
    requires |counts| == COLOR_ARRAY_SIZE && AreColors(s) && IsMedian(counts, s, half, n)
    ensures 0 < n < |s|
  {
  }

  /** There is only one median. */
  lemma MedianUnique(counts: seq<nat>, s: seq<nat>, half: nat, n: nat, m: nat)
    requires |counts| == COLOR_ARRAY_SIZE && AreColors(s)
    requires IsMedian(counts, s, half, n) && IsMedian(counts, s, half, m)
    ensures n == m
  {
    hide Weight;
    if n < m {
      WeightGrows(counts, s, n + 1, m);
    } else if m < n {
      WeightGrows(counts, s, m + 1, n);
    }
  }

  lemma CutUnique(st: Stage, a: Stage, b: Stage, i: nat, axis: nat, counts: seq<nat>, n: nat, m: nat)
    requires CutBefore(st, a, i, axis, counts, n) && CutBefore(st, b, i, axis, counts, m)
    ensures a == b
  {
    hide IsMedian, FirstHalf, SecondHalf, Weight, Sort, Scaled;
    MedianUnique(counts, Sort(axis, st.lists[i]), st.cubes[i].count / 2, n, m);
  }

  /** The one cube that the subdivision begins with. */
  function FirstStage(sampled: seq<nat>, pixels: nat): Stage
    requires sampled != []
  {
    Stage([Cube([0, 0, 0], [255, 255, 255], |sampled|, pixels % ULONG, sampled[0])], [sampled])
  }

  lemma WidestUnique(cubes: seq<Cube>, i: nat, a: nat, j: nat, b: nat)
    requires Widest(cubes, i, a) && Widest(cubes, j, b)
    ensures i == j && a == b
  {
    assert cubes[i].rgbWidth[a] <= cubes[j].rgbWidth[b] <= cubes[i].rgbWidth[a];
  }

  /** So every turn, and with it the whole subdivision, is determined by the cubes and the counts it begins with. */
  lemma {:induction false} SubdividedOneWay(a: seq<Stage>, b: seq<Stage>, counts: seq<nat>)
    requires Subdivided(a, counts) && Subdivided(b, counts) && |a| == |b| > 0 && a[0] == b[0]
    ensures a == b
  {
    hide Widest, CutBefore;
    var n := |a| - 1;
    if n > 0 {
      SubdividedOneWay(a[..n], b[..n], counts);
      assert a[n - 1] == a[..n][n - 1] == b[n - 1];
      assert Subdivision(a[n - 1], a[n], counts) && Subdivision(b[n - 1], b[n], counts);
      var st := a[n - 1];
      var i: nat, x: nat :| Widest(st.cubes, i, x) && Halved(st, a[n], i, x, counts);
      var j: nat, y: nat :| Widest(st.cubes, j, y) && Halved(st, b[n], j, y, counts);
      WidestUnique(st.cubes, i, x, j, y);
      var k: nat :| CutBefore(st, a[n], i, x, counts, k);
      var l: nat :| CutBefore(st, b[n], i, x, counts, l);
      CutUnique(st, a[n], b[n], i, x, counts, k, l);
    }
  }

  lemma WeightMore(counts: seq<nat>, s: seq<nat>, n: nat)
    requires |counts| == COLOR_ARRAY_SIZE && AreColors(s) && n < |s|
    ensures Weight(counts, s[..0]) == 0 && Weight(counts, s[..n + 1]) == Weight(counts, s[..n]) + counts[s[n]]
  {
    assert s[..n + 1][..n] == s[..n];
  }

  /** In how many of the first n pixels colour e occurs. */
  function Occurrences(red: seq<byte>, green: seq<byte>, blue: seq<byte>, e: nat, n: nat): nat
    requires n <= |red| == |green| == |blue|
  {
    if n == 0 then 0
    else
      Occurrences(red, green, blue, e, n - 1)
      + (if IndexOf(red[n - 1], green[n - 1], blue[n - 1]) == e then 1 else 0)
  }

  lemma {:induction false} Occurs(red: seq<byte>, green: seq<byte>, blue: seq<byte>, e: nat, n: nat)
    requires n <= |red| == |green| == |blue|
    ensures Occurrences(red, green, blue, e, n) > 0 <==>
      exists p :: 0 <= p < n && IndexOf(red[p], green[p], blue[p]) == e
  {
    hide IndexOf;
    if n > 0 {
      Occurs(red, green, blue, e, n - 1);
    }
  }

  class Quantizer {
    const colorCount: array<nat>     // the fields Count,
    const next: array<int>           // Pnext,
    const newColorIndex: array<nat>  // and NewColorIndex of ColorArrayEntries
    const cubes: array<Cube>         // NewColorSubdiv

    ghost var lists: seq<seq<nat>>

    constructor ()
      ensures fresh(colorCount) && fresh(next) && fresh(newColorIndex) && fresh(cubes) && Sizes()
    {
      colorCount := new nat[COLOR_ARRAY_SIZE](_ => 0);
      next := new int[COLOR_ARRAY_SIZE](_ => NULL);
      newColorIndex := new nat[COLOR_ARRAY_SIZE](_ => 0);
      cubes := new Cube[256](_ => Cube([0, 0, 0], [255, 255, 255], 0, 0, NULL));
    }

    predicate Sizes() {
      && colorCount.Length == next.Length == newColorIndex.Length == COLOR_ARRAY_SIZE && cubes.Length == 256
      && colorCount != newColorIndex
    }

    /** The first `size` cubes are a median cut of the sampled colours. */
    ghost predicate Valid(size: nat, sampled: seq<nat>)
      reads this, next, cubes
    {
      Sizes() && size <= 256 && Cut(cubes[..size], next[..], lists, sampled)
    }

    /** The widest side of any cube that can still be cut, or -1 if there is none. */
    method FindCandidate(size: nat, ghost sampled: seq<nat>) returns (maxSize: int, index: nat, axis: nat)
      requires Valid(size, sampled)
      ensures maxSize == -1 ==> forall i :: 0 <= i < size ==> cubes[i].numEntries <= 1
      ensures maxSize != -1 ==> Widest(cubes[..size], index, axis) && maxSize == cubes[index].rgbWidth[axis]
    {
      hide Partition, Linked, Boxed;
      CubesShaped(cubes[..size], next[..], lists, sampled);
      maxSize, index, axis := -1, 0, 0;
      for i := 0 to size
        invariant maxSize >= -1
        invariant maxSize == -1 ==> forall k :: 0 <= k < i ==> cubes[k].numEntries <= 1
        invariant maxSize != -1 ==>
          index < size && axis < 3 && cubes[index].numEntries > 1 && cubes[index].rgbWidth[axis] == maxSize
        invariant forall k, j :: 0 <= k < i && 0 <= j < 3 && cubes[k].numEntries > 1 ==>
          cubes[k].rgbWidth[j] <= maxSize && (k < index || (k == index && j < axis) ==> cubes[k].rgbWidth[j] < maxSize)
        invariant maxSize != -1 ==> index < i
      {
        assert cubes[..size][i] == cubes[i];
        for j := 0 to 3
          invariant maxSize >= -1
          invariant maxSize == -1 ==>
            (j > 0 ==> cubes[i].numEntries <= 1) && forall k :: 0 <= k < i ==> cubes[k].numEntries <= 1
          invariant maxSize != -1 ==>
            index < size && axis < 3 && cubes[index].numEntries > 1 && cubes[index].rgbWidth[axis] == maxSize
          invariant maxSize != -1 ==> index < i || (index == i && axis < j)
          invariant forall k, l :: 0 <= k <= i && 0 <= l < (if k == i then j else 3) && cubes[k].numEntries > 1 ==>
            && cubes[k].rgbWidth[l] <= maxSize
            && (k < index || (k == index && l < axis) ==> cubes[k].rgbWidth[l] < maxSize)
        {
          if cubes[i].rgbWidth[j] > maxSize && cubes[i].numEntries > 1 {
            maxSize, index, axis := cubes[i].rgbWidth[j], i, j;
          }
        }
      }
    }

    /** Put the colours of a list into an array. */
    method Collect(c: Cube, ghost list: seq<nat>) returns (sortArray: array<nat>)
      requires Sizes() && Linked(c, next[..], list)
      ensures fresh(sortArray) && sortArray[..] == list
    {
      sortArray := new nat[c.numEntries];
      var quantizedColor := c.quantizedColors;
      var j: nat := 0;
      while j < c.numEntries && quantizedColor != NULL
        invariant j <= c.numEntries && sortArray[..j] == list[..j]
        invariant quantizedColor == if j < |list| then list[j] else NULL
        decreases c.numEntries - j
      {
        sortArray[j] := quantizedColor;
        assert next[..][list[j]] == next[list[j]];
        quantizedColor := next[quantizedColor];
        j := j + 1;
      }
    }

    /** Link the colours in a new order. */
    method Relink(s: seq<nat>)
      requires Sizes() && s != [] && AreColors(s) && Distinct(s)
      modifies next
      ensures forall k :: 0 <= k < |s| ==> next[s[k]] == Follower(s, k)
      ensures forall e :: 0 <= e < COLOR_ARRAY_SIZE && e !in s ==> next[e] == old(next[e])
    {
      for j := 0 to |s| - 1
        invariant forall k :: 0 <= k < j ==> next[s[k]] == Follower(s, k)
        invariant forall e :: 0 <= e < COLOR_ARRAY_SIZE && e !in s ==> next[e] == old(next[e])
      {
        next[s[j]] := s[j + 1];
      }
      next[s[|s| - 1]] := NULL;
    }

    /** Go along a list up to half the count, but leave at least one colour behind. */
    method Median(c: Cube, s: seq<nat>) returns (numEntries: nat, count: nat)
      requires Sizes() && |s| > 1 && AreColors(s)
      requires forall k :: 0 <= k < |s| ==> next[s[k]] == Follower(s, k)
      ensures IsMedian(colorCount[..], s, c.count / 2, numEntries) && count == Weight(colorCount[..], s[..numEntries])
    {
      hide Follower, Weight;
      ghost var counts := colorCount[..];
      WeightMore(counts, s, 0);
      FollowerIs(s, 0);
      var quantizedColor: int := s[0];
      var sum: int := c.count / 2 - colorCount[quantizedColor];
      numEntries, count := 1, colorCount[quantizedColor];
      while true
        invariant 0 < numEntries < |s| && quantizedColor == s[numEntries - 1]
        invariant count == Weight(counts, s[..numEntries])
        invariant sum == c.count / 2 - count
        invariant numEntries > 1 ==> sum >= 0
        decreases |s| - numEntries
      {
        WeightMore(counts, s, numEntries);
        FollowerIs(s, numEntries - 1);
        FollowerIs(s, numEntries);
        if next[quantizedColor] == NULL {
          break;
        }
        sum := sum - colorCount[next[quantizedColor]];
        if sum < 0 {
          break;
        }
        if next[next[quantizedColor]] == NULL {
          break;
        }
        quantizedColor := next[quantizedColor];
        numEntries := numEntries + 1;
        count := count + colorCount[quantizedColor];
      }
    }

    /** Split cube `index` into two along an axis. */
    method Split(index: nat, axis: nat, size: nat, ghost sampled: seq<nat>)
      requires Valid(size, sampled) && index < size < 256 && axis < 3 && cubes[index].numEntries > 1
      modifies this`lists, next, cubes
      ensures Valid(size + 1, sampled)
      ensures Halved(Stage(old(cubes[..size]), old(lists)), Stage(cubes[..size + 1], lists),
                     index, axis, colorCount[..])
    {
      hide Partition, Boxed, Linked, Sort, Sorted, Scaled, Follower, IsMedian, Halved;
      ghost var list, nexts, before := lists[index], next[..], cubes[..size];
      var c := cubes[index];
      assert before[index] == c;
      ListShaped(before, next[..], lists, sampled, index);
      var sortArray := Collect(c, list);
      var s := Sort(axis, sortArray[..]);
      SortSorts(axis, list);
      Relink(s);
      var n, count := Median(c, s);
      MedianInside(colorCount[..], s, c.count / 2, n);
      next[s[n - 1]] := NULL;
      var rest := (c.count - count) % ULONG;
      CutSplit(before, nexts, lists, sampled, index, axis, s, n, next[..], rest, count);
      HalvedAt(Stage(before, lists), index, axis, colorCount[..], c, s, n, count);
      cubes[size] := SecondHalf(c, axis, s, n, count);
      cubes[index] := FirstHalf(c, axis, s, n, rest);
      lists := lists[index := s[..n]] + [s[n..]];
      assert cubes[..size + 1] == before[index := cubes[index]] + [cubes[size]];
    }

    /** SubdivColorMap: the cubes are as many as asked for, or as there are colours. */
    method SubdivColorMap(colorMapSize: nat, ghost sampled: seq<nat>) returns (size: nat, ghost trace: seq<Stage>)
      requires Valid(1, sampled) && colorMapSize <= 256
      modifies this`lists, next, cubes
      ensures Valid(size, sampled)
      ensures size == if colorMapSize <= 1 then 1 else if colorMapSize <= |sampled| then colorMapSize else |sampled|
      ensures |trace| == size >= 1 && trace[0] == Stage(old(cubes[..1]), old(lists))
      ensures trace[size - 1] == Stage(cubes[..size], lists) && Subdivided(trace, colorCount[..])
    {
      hide Cut, Subdivision;
      size, trace := 1, [Stage(cubes[..1], lists)];
      EnoughColors(cubes[..size], next[..], lists, sampled);
      while colorMapSize > size
        invariant 1 <= size <= 256 && Valid(size, sampled) && size <= |sampled|
        invariant size == 1 || size <= colorMapSize
        invariant |trace| == size && trace[0] == Stage(old(cubes[..1]), old(lists))
        invariant trace[size - 1] == Stage(cubes[..size], lists) && Subdivided(trace, colorCount[..])
      {
        var maxSize, index, axis := FindCandidate(size, sampled);
        if maxSize == -1 {
          Singletons(cubes[..size], next[..], lists, sampled);
          return;
        }
        Split(index, axis, size, sampled);
        OneTurn(trace[size - 1], Stage(cubes[..size + 1], lists), index, axis, colorCount[..]);
        trace := trace + [Stage(cubes[..size + 1], lists)];
        size := size + 1;
        EnoughColors(cubes[..size], next[..], lists, sampled);
      }
    }

    // ----- GifQuantizeBuffer

    /** Sample the colours. */
    method Sample(red: seq<byte>, green: seq<byte>, blue: seq<byte>)
      requires Sizes() && |red| == |green| == |blue|
      modifies colorCount
      ensures forall e :: 0 <= e < COLOR_ARRAY_SIZE ==> colorCount[e] == Occurrences(red, green, blue, e, |red|)
    {
      hide IndexOf;
      for i := 0 to COLOR_ARRAY_SIZE
        invariant forall e :: 0 <= e < i ==> colorCount[e] == 0
      {
        colorCount[i] := 0;
      }
      for i := 0 to |red|
        invariant forall e :: 0 <= e < COLOR_ARRAY_SIZE ==> colorCount[e] == Occurrences(red, green, blue, e, i)
      {
        var index := IndexOf(red[i], green[i], blue[i]);
        colorCount[index] := colorCount[index] + 1;
      }
    }

    /** Chain the colours that occur. */
    method ChainColors() returns (first: nat, numOfEntries: nat, ghost sampled: seq<nat>)
      requires Sizes() && exists e :: 0 <= e < COLOR_ARRAY_SIZE && colorCount[e] > 0
      modifies next
      ensures Distinct(sampled) && AreColors(sampled)
      ensures sampled != [] && sampled[0] == first && |sampled| == numOfEntries
      ensures forall k :: 0 <= k < |sampled| ==> next[sampled[k]] == Follower(sampled, k)
      ensures forall e :: e in sampled <==> 0 <= e < COLOR_ARRAY_SIZE && colorCount[e] > 0
    {
      hide Follower;
      var i: nat := 0;
      while i < COLOR_ARRAY_SIZE
        invariant i <= COLOR_ARRAY_SIZE && forall e :: 0 <= e < i ==> colorCount[e] == 0
      {
        if colorCount[i] > 0 {
          break;
        }
        i := i + 1;
      }
      first, numOfEntries, sampled := i, 1, [i];
      var quantizedColor := i;
      i := i + 1;
      while i < COLOR_ARRAY_SIZE
        invariant i <= COLOR_ARRAY_SIZE && AreColors(sampled) && Distinct(sampled) && |sampled| == numOfEntries > 0
        invariant sampled[0] == first && sampled[numOfEntries - 1] == quantizedColor
        invariant forall e :: e in sampled <==> 0 <= e < i && colorCount[e] > 0
        invariant forall k :: 0 <= k < numOfEntries - 1 ==> next[sampled[k]] == Follower(sampled, k)
      {
        if colorCount[i] > 0 {
          next[quantizedColor] := i;
          quantizedColor := i;
          FollowersKept(sampled, i);
          sampled := sampled + [i];
          numOfEntries := numOfEntries + 1;
        }
        i := i + 1;
      }
      next[quantizedColor] := NULL;
      FollowerIs(sampled, numOfEntries - 1);
    }

    /** The colours of one cube get its index, and are summed up. */
    method SumColors(c: Cube, i: nat, ghost list: seq<nat>) returns (red: nat, green: nat, blue: nat)
      requires Sizes() && Linked(c, next[..], list) && Distinct(list)
      modifies newColorIndex
      ensures red == SumOf(list, 0) && green == SumOf(list, 1) && blue == SumOf(list, 2)
      ensures forall e :: 0 <= e < COLOR_ARRAY_SIZE ==>
        newColorIndex[e] == if e in list then i else old(newColorIndex[e])
    {
      hide RGB, Follower, SumOf;
      NoSum(0);
      NoSum(1);
      NoSum(2);
      red, green, blue := 0, 0, 0;
      var quantizedColor := c.quantizedColors;
      ghost var k: nat := 0;
      assert list[..0] == [];
      while quantizedColor != NULL
        invariant k <= |list| && quantizedColor == if k < |list| then list[k] else NULL
        invariant red == SumOf(list[..k], 0) && green == SumOf(list[..k], 1) && blue == SumOf(list[..k], 2)
        invariant forall e :: 0 <= e < COLOR_ARRAY_SIZE ==>
          newColorIndex[e] == if e in list[..k] then i else old(newColorIndex[e])
        decreases |list| - k
      {
        ListMore(list, k);
        newColorIndex[quantizedColor] := i;
        red := red + RGB(quantizedColor, 0);
        green := green + RGB(quantizedColor, 1);
        blue := blue + RGB(quantizedColor, 2);
        assert next[..][list[k]] == next[list[k]];
        FollowerIs(list, k);
        quantizedColor := next[quantizedColor];
        SumMore(list, k, 0);
        SumMore(list, k, 1);
        SumMore(list, k, 2);
        k := k + 1;
      }
      assert list[..k] == list;
    }

    /** And their mean goes to the colour map. */
    method Average(c: Cube, i: nat, ghost list: seq<nat>) returns (color: Color)
      requires Sizes() && Linked(c, next[..], list) && Distinct(list)
      modifies newColorIndex
      ensures |list| * color.red as nat <= ScaledSum(list, 0) < |list| * (color.red as nat + 1)
      ensures |list| * color.green as nat <= ScaledSum(list, 1) < |list| * (color.green as nat + 1)
      ensures |list| * color.blue as nat <= ScaledSum(list, 2) < |list| * (color.blue as nat + 1)
      ensures forall e :: 0 <= e < COLOR_ARRAY_SIZE ==>
        newColorIndex[e] == if e in list then i else old(newColorIndex[e])
    {
      hide SumOf, MeanOf, ScaledSum, Distinct;
      var red, green, blue := SumColors(c, i, list);
      MeanRounds(list, 0);
      MeanRounds(list, 1);
      MeanRounds(list, 2);
      color := Color(MeanOf(red, c.numEntries), MeanOf(green, c.numEntries), MeanOf(blue, c.numEntries));
    }

    /** Index and colour for every cube. */
    method AverageAll(size: nat, outputColorMap: array<Color>, ghost sampled: seq<nat>)
      requires Valid(size, sampled) && size <= outputColorMap.Length
      modifies newColorIndex, outputColorMap
      ensures forall i :: size <= i < outputColorMap.Length ==> outputColorMap[i] == old(outputColorMap[i])
      ensures forall i :: 0 <= i < size ==> lists[i] != [] && AreColors(lists[i]) && IsMean(outputColorMap[i], lists[i])
      ensures forall i, e :: 0 <= i < size && e in lists[i] ==> e < COLOR_ARRAY_SIZE && newColorIndex[e] == i
    {
      hide Boxed, Linked, Partition, IsMean, ScaledSum;
      for i := 0 to size
        invariant forall k :: size <= k < outputColorMap.Length ==> outputColorMap[k] == old(outputColorMap[k])
        invariant forall k :: 0 <= k < i ==>
          lists[k] != [] && AreColors(lists[k]) && IsMean(outputColorMap[k], lists[k])
        invariant forall k, e :: 0 <= k < i && e in lists[k] ==> e < COLOR_ARRAY_SIZE && newColorIndex[e] == k
      {
        ListShaped(cubes[..size], next[..], lists, sampled, i);
        NotElsewhere(cubes[..size], next[..], lists, sampled, i);
        assert cubes[..size][i] == cubes[i];
        LinkedColors(cubes[i], next[..], lists[i]);
        var color := Average(cubes[i], i, lists[i]);
        MeanIs(color, lists[i]);
        outputColorMap[i] := color;
      }
    }

    /** GifQuantizeBuffer, for at least one pixel.  There are as many colours in the end as were asked for, or as
        there are different ones in the picture, rounded to 5 bits; every pixel gets the index of a cube that
        contains its colour, and every cube the mean of its colours. */
    method GifQuantizeBuffer(red: seq<byte>, green: seq<byte>, blue: seq<byte>, colorMapSize: nat,
                             outputBuffer: array<nat>, outputColorMap: array<Color>)
      returns (newSize: nat, ghost sampled: seq<nat>, ghost trace: seq<Stage>)
      requires Sizes() && 0 < |red| == |green| == |blue| <= outputBuffer.Length
      requires colorMapSize <= 256 && colorMapSize <= outputColorMap.Length && 0 < outputColorMap.Length
      requires outputBuffer != newColorIndex && outputBuffer != colorCount
      modifies this`lists, colorCount, next, newColorIndex, cubes, outputBuffer, outputColorMap
      ensures Distinct(sampled)
      ensures forall e :: e in sampled <==> exists p :: 0 <= p < |red| && IndexOf(red[p], green[p], blue[p]) == e
      ensures forall e :: 0 <= e < COLOR_ARRAY_SIZE ==> colorCount[e] == Occurrences(red, green, blue, e, |red|)
      ensures newSize == if colorMapSize == 0 then 1 else if colorMapSize <= |sampled| then colorMapSize else |sampled|
      ensures Valid(newSize, sampled) && |trace| == newSize && Subdivided(trace, colorCount[..])
      ensures sampled != [] && newSize > 0 && trace[0] == FirstStage(sampled, |red|)
      ensures trace[newSize - 1] == Stage(cubes[..newSize], lists)
      ensures forall p :: 0 <= p < |red| ==>
        outputBuffer[p] < newSize && newSize <= |lists| && IndexOf(red[p], green[p], blue[p]) in lists[outputBuffer[p]]
      ensures forall i :: 0 <= i < newSize ==> lists[i] != [] && AreColors(lists[i])
      ensures forall i :: 0 <= i < newSize ==> var n := |lists[i]|;
        && n * outputColorMap[i].red as nat <= ScaledSum(lists[i], 0) < n * (outputColorMap[i].red as nat + 1)
        && n * outputColorMap[i].green as nat <= ScaledSum(lists[i], 1) < n * (outputColorMap[i].green as nat + 1)
        && n * outputColorMap[i].blue as nat <= ScaledSum(lists[i], 2) < n * (outputColorMap[i].blue as nat + 1)
      ensures forall i :: newSize <= i < colorMapSize ==> outputColorMap[i] == Color(0, 0, 0)
      ensures forall i :: colorMapSize <= i < outputColorMap.Length && newSize <= i ==>
        outputColorMap[i] == old(outputColorMap[i])
      ensures forall p :: |red| <= p < outputBuffer.Length ==> outputBuffer[p] == old(outputBuffer[p])
    {
      hide Cut, IsMean, IndexOf, ScaledSum;
      Sample(red, green, blue);
      forall e | 0 <= e < COLOR_ARRAY_SIZE
        ensures colorCount[e] > 0 <==> exists p :: 0 <= p < |red| && IndexOf(red[p], green[p], blue[p]) == e
      {
        Occurs(red, green, blue, e, |red|);
      }
      sampled := FirstCube(red, green, blue);
      newSize, trace := SubdivColorMap(colorMapSize, sampled);
      EnoughColors(cubes[..newSize], next[..], lists, sampled);
      ClearRest(newSize, colorMapSize, outputColorMap);
      label Cleared:
      AverageAll(newSize, outputColorMap, sampled);
      assert forall i :: newSize <= i < outputColorMap.Length ==> outputColorMap[i] == old@Cleared(outputColorMap[i]);
      Everywhere(cubes[..newSize], next[..], lists, sampled);
      MapPixels(red, green, blue, outputBuffer);
      forall p | 0 <= p < |red|
        ensures outputBuffer[p] < newSize && IndexOf(red[p], green[p], blue[p]) in lists[outputBuffer[p]]
      {
        var e := IndexOf(red[p], green[p], blue[p]);
        assert e in sampled;
        var i :| 0 <= i < |lists| && e in lists[i];
      }
      forall i | 0 <= i < newSize {
        MeanIs(outputColorMap[i], lists[i]);
      }
    }

    /** Put all the colours into the first cube. */
    method FirstCube(red: seq<byte>, ghost green: seq<byte>, ghost blue: seq<byte>) returns (ghost sampled: seq<nat>)
      requires Sizes() && 0 < |red| == |green| == |blue|
      requires forall e :: 0 <= e < COLOR_ARRAY_SIZE ==>
        (colorCount[e] > 0 <==> exists p :: 0 <= p < |red| && IndexOf(red[p], green[p], blue[p]) == e)
      modifies this`lists, next, cubes
      ensures Valid(1, sampled) && Distinct(sampled) && sampled != []
      ensures Stage(cubes[..1], lists) == FirstStage(sampled, |red|)
      ensures forall e :: e in sampled <==> exists p :: 0 <= p < |red| && IndexOf(red[p], green[p], blue[p]) == e
    {
      hide Cut, IndexOf, Follower;
      InitCubes();
      assert colorCount[IndexOf(red[0], green[0], blue[0])] > 0;
      var first, numOfEntries;
      first, numOfEntries, sampled := ChainColors();
      cubes[0] := cubes[0].(quantizedColors := first, numEntries := numOfEntries, count := |red| % ULONG);
      lists := [sampled];
      FirstCut(cubes[0], next[..], sampled);
      assert cubes[..1] == [cubes[0]];
    }

    method InitCubes()
      requires Sizes()
      modifies cubes
      ensures forall k :: 0 <= k < 256 ==> cubes[k] == Cube([0, 0, 0], [255, 255, 255], 0, 0, NULL)
    {
      for i := 0 to 256
        invariant forall k :: 0 <= k < i ==> cubes[k] == Cube([0, 0, 0], [255, 255, 255], 0, 0, NULL)
      {
        cubes[i] := Cube([0, 0, 0], [255, 255, 255], 0, 0, NULL);
      }
    }

    /** Clear the rest of the colour map. */
    method ClearRest(from: nat, to: nat, outputColorMap: array<Color>)
      requires to <= outputColorMap.Length
      modifies outputColorMap
      ensures forall i :: 0 <= i < outputColorMap.Length ==>
        outputColorMap[i] == if from <= i < to then Color(0, 0, 0) else old(outputColorMap[i])
    {
      for i := from to if from <= to then to else from
        invariant forall k :: 0 <= k < outputColorMap.Length ==>
          outputColorMap[k] == if from <= k < i then Color(0, 0, 0) else old(outputColorMap[k])
      {
        outputColorMap[i] := Color(0, 0, 0);
      }
    }

    /** Put the index of each pixel's cube into the output. */
    method MapPixels(red: seq<byte>, green: seq<byte>, blue: seq<byte>, outputBuffer: array<nat>)
      requires Sizes() && |red| == |green| == |blue| <= outputBuffer.Length && outputBuffer != newColorIndex
      modifies outputBuffer
      ensures forall p :: 0 <= p < |red| ==> outputBuffer[p] == newColorIndex[IndexOf(red[p], green[p], blue[p])]
      ensures forall p :: |red| <= p < outputBuffer.Length ==> outputBuffer[p] == old(outputBuffer[p])
    {
      hide IndexOf;
      for i := 0 to |red|
        invariant forall p :: 0 <= p < i ==> outputBuffer[p] == newColorIndex[IndexOf(red[p], green[p], blue[p])]
        invariant forall p :: i <= p < outputBuffer.Length ==> outputBuffer[p] == old(outputBuffer[p])
      {
        outputBuffer[i] := newColorIndex[IndexOf(red[i], green[i], blue[i])];
      }
    }
  }

  /** All colours in one cube. */
  lemma FirstCut(c: Cube, next: seq<int>, sampled: seq<nat>)
    requires Distinct(sampled) && sampled != [] && AreColors(sampled) && |next| == COLOR_ARRAY_SIZE
    requires c.rgbMin == [0, 0, 0] && c.rgbWidth == [255, 255, 255]
    requires c.numEntries == |sampled| && c.quantizedColors == sampled[0]
    requires forall k :: 0 <= k < |sampled| ==> next[sampled[k]] == Follower(sampled, k)
    ensures Cut([c], next, [sampled], sampled)
  {
    hide Follower, RGB;
    assert Total([sampled]) == Total([]) + |sampled| by {
      assert [sampled][..0] == [];
    }
    forall e
      ensures e in sampled <==> Somewhere([sampled], e)
    {
      assert [sampled][0] == sampled;
    }
    forall k, j | 0 <= k < |sampled| && 0 <= j < 3
      ensures c.rgbMin[j] <= Scaled(sampled[k], j) <= c.rgbMin[j] + c.rgbWidth[j]
    {
    }
  }

  lemma NotElsewhere(cubes: seq<Cube>, next: seq<int>, lists: seq<seq<nat>>, sampled: seq<nat>, i: nat)
    requires Cut(cubes, next, lists, sampled) && i < |lists|
    ensures forall k, e :: 0 <= k < i && e in lists[k] ==> e !in lists[i]
  {
  }

  lemma LinkedColors(c: Cube, next: seq<int>, list: seq<nat>)
    requires Linked(c, next, list)
    ensures list != [] && AreColors(list) && forall e :: e in list ==> e < COLOR_ARRAY_SIZE
  {
  }

  /** Every sampled colour is in some list. */
  lemma Everywhere(cubes: seq<Cube>, next: seq<int>, lists: seq<seq<nat>>, sampled: seq<nat>)
    requires Cut(cubes, next, lists, sampled)
    ensures |lists| == |cubes| && forall e :: e in sampled ==> exists i :: 0 <= i < |lists| && e in lists[i]
  {
    forall e | e in sampled
      ensures exists i :: 0 <= i < |lists| && e in lists[i]
    {
      assert Somewhere(lists, e);
    }
  }

  function IndexOf(red: byte, green: byte, blue: byte): (e: nat)
    ensures e < COLOR_ARRAY_SIZE
  {
    red / 8 * 1024 + green / 8 * 32 + blue / 8
  }

  /** The sampled colour is the pixel's, rounded down to 5 bits. */
  lemma IndexRounds(red: byte, green: byte, blue: byte)
    ensures var e := IndexOf(red, green, blue);
      && Scaled(e, 0) <= red < Scaled(e, 0) + 8 && Scaled(e, 1) <= green < Scaled(e, 1) + 8
      && Scaled(e, 2) <= blue < Scaled(e, 2) + 8
  {
    Digits(red / 8, green / 8, blue / 8);
  }

  lemma Digits(r: nat, g: nat, b: nat)
    requires r < 32 && g < 32 && b < 32
    ensures var e := r * 1024 + g * 32 + b;
      e < COLOR_ARRAY_SIZE && RGB(e, 0) == r && RGB(e, 1) == g && RGB(e, 2) == b
  {
    var e := r * 1024 + g * 32 + b;
    assert e / 1024 == r;
    assert e / 32 == r * 32 + g;
    assert e % 32 == b;
  }

  lemma FollowerIs(list: seq<nat>, k: nat)
    ensures Follower(list, k) == if k + 1 < |list| then list[k + 1] else NULL
  {
  }

  lemma FollowersKept(list: seq<nat>, e: nat)
    ensures forall k :: 0 <= k < |list| - 1 ==> Follower(list + [e], k) == Follower(list, k)
    ensures list != [] ==> Follower(list + [e], |list| - 1) == e
  {
  }

  function SumOf(list: seq<nat>, axis: nat): (sum: nat)
    requires AreColors(list) && axis < 3
  {
    if list == [] then 0 else SumOf(list[..|list| - 1], axis) + RGB(list[|list| - 1], axis)
  }

  /** The mean of n values of 5 bits, scaled to 8. */
  function MeanOf(sum: nat, n: nat): nat
    requires n > 0
  {
    8 * sum / n
  }

  lemma NoSum(axis: nat)
    requires axis < 3
    ensures SumOf([], axis) == 0
  {
  }

  lemma SumMore(list: seq<nat>, k: nat, axis: nat)
    requires AreColors(list) && k < |list| && axis < 3
    ensures SumOf(list[..k + 1], axis) == SumOf(list[..k], axis) + RGB(list[k], axis)
  {
    assert list[..k + 1][..k] == list[..k];
  }

  lemma ListMore(list: seq<nat>, k: nat)
    requires k < |list|
    ensures forall e :: e in list[..k + 1] <==> e in list[..k] || e == list[k]
  {
    assert list[..k + 1] == list[..k] + [list[k]];
  }

  function ScaledSum(list: seq<nat>, axis: nat): nat
    requires AreColors(list) && axis < 3
  {
    if list == [] then 0 else Scaled(list[0], axis) + ScaledSum(list[1..], axis)
  }

  lemma {:induction false} ScaledSumSnoc(list: seq<nat>, e: nat, axis: nat)
    requires AreColors(list) && e < COLOR_ARRAY_SIZE && axis < 3
    ensures ScaledSum(list + [e], axis) == ScaledSum(list, axis) + Scaled(e, axis)
  {
    hide Scaled;
    if list == [] {
      assert [] + [e] == [e] && [e][1..] == [];
    } else {
      ScaledSumSnoc(list[1..], e, axis);
      assert (list + [e])[1..] == list[1..] + [e];
    }
  }

  lemma {:induction false} SumScales(list: seq<nat>, axis: nat)
    requires AreColors(list) && axis < 3
    ensures ScaledSum(list, axis) == 8 * SumOf(list, axis)
  {
    hide Scaled, RGB;
    if list != [] {
      var n := |list| - 1;
      SumScales(list[..n], axis);
      ScaledSumSnoc(list[..n], list[n], axis);
      ScaledIs(list[n], axis);
      assert list[..n] + [list[n]] == list;
    }
  }

  lemma {:induction false} SumBounds(list: seq<nat>, axis: nat, min: nat, max: nat)
    requires AreColors(list) && axis < 3 && forall k :: 0 <= k < |list| ==> min <= Scaled(list[k], axis) <= max
    ensures |list| * min <= ScaledSum(list, axis) <= |list| * max
  {
    hide Scaled;
    if list != [] {
      var n := |list| - 1;
      SumBounds(list[1..], axis, min, max);
      OneMore(n, min);
      OneMore(n, max);
    }
  }

  lemma ScaledIs(e: nat, axis: nat)
    requires e < COLOR_ARRAY_SIZE && axis < 3
    ensures Scaled(e, axis) == 8 * RGB(e, axis)
  {
  }

  lemma OneMore(n: nat, x: nat)
    ensures (n + 1) * x == n * x + x
  {
  }

  lemma Quotient(sum: nat, n: nat)
    requires n > 0
    ensures n * (sum / n) <= sum < n * (sum / n + 1)
  {
    var q := sum / n;
    assert n * q <= sum < n * q + n;
    assert n * (q + 1) == n * q + n;
  }

  /** What is the mean of numbers between min and max is between min and max. */
  lemma Between(sum: nat, n: nat, v: nat, min: nat, max: nat)
    requires n > 0 && n * min <= sum <= n * max && n * v <= sum < n * (v + 1)
    ensures min <= v <= max
  {
    Less(n, v, min);
    Less(n, max, v);
    assert n * (v + 1) == n * v + n;
  }

  lemma Less(n: nat, a: nat, b: nat)
    ensures a < b ==> n * a + n <= n * b
  {
    if a < b {
      var d := b - a;
      AtLeastOnce(n, d);
      assert n * (a + d) == n * a + n * d;
    }
  }

  lemma AtLeastOnce(n: nat, d: nat)
    requires d >= 1
    ensures n * d >= n
  {
  }

  /** What the code computes is the mean, and fits a byte. */
  lemma MeanRounds(list: seq<nat>, axis: nat)
    requires AreColors(list) && list != [] && axis < 3
    ensures var v := MeanOf(SumOf(list, axis), |list|);
      v <= 248 && |list| * v <= ScaledSum(list, axis) < |list| * (v + 1)
  {
    hide Scaled, SumOf, ScaledSum;
    SumScales(list, axis);
    SumBounds(list, axis, 0, 248);
    Quotient(8 * SumOf(list, axis), |list|);
    Between(8 * SumOf(list, axis), |list|, MeanOf(SumOf(list, axis), |list|), 0, 248);
  }

  /** The colour of a cube is the mean of its colours, rounded down. */
  ghost predicate IsMean(color: Color, list: seq<nat>)
    requires AreColors(list) && list != []
  {
    && |list| * color.red as nat <= ScaledSum(list, 0) < |list| * (color.red as nat + 1)
    && |list| * color.green as nat <= ScaledSum(list, 1) < |list| * (color.green as nat + 1)
    && |list| * color.blue as nat <= ScaledSum(list, 2) < |list| * (color.blue as nat + 1)
  }

  lemma MeanIs(color: Color, list: seq<nat>)
    requires AreColors(list) && list != []
    ensures IsMean(color, list) <==>
      && |list| * color.red as nat <= ScaledSum(list, 0) < |list| * (color.red as nat + 1)
      && |list| * color.green as nat <= ScaledSum(list, 1) < |list| * (color.green as nat + 1)
      && |list| * color.blue as nat <= ScaledSum(list, 2) < |list| * (color.blue as nat + 1)
  {
  }

  /** It lies in the cube's box. */
  lemma MeanBoxed(c: Cube, list: seq<nat>, m: Color)
    requires Boxed(c, list) && list != [] && IsMean(m, list)
    ensures
      && c.rgbMin[0] <= m.red <= c.rgbMin[0] + c.rgbWidth[0] && c.rgbMin[1] <= m.green <= c.rgbMin[1] + c.rgbWidth[1]
      && c.rgbMin[2] <= m.blue <= c.rgbMin[2] + c.rgbWidth[2]
  {
    hide Scaled, ScaledSum;
    SumBounds(list, 0, c.rgbMin[0], c.rgbMin[0] + c.rgbWidth[0]);
    SumBounds(list, 1, c.rgbMin[1], c.rgbMin[1] + c.rgbWidth[1]);
    SumBounds(list, 2, c.rgbMin[2], c.rgbMin[2] + c.rgbWidth[2]);
    Between(ScaledSum(list, 0), |list|, m.red, c.rgbMin[0], c.rgbMin[0] + c.rgbWidth[0]);
    Between(ScaledSum(list, 1), |list|, m.green, c.rgbMin[1], c.rgbMin[1] + c.rgbWidth[1]);
    Between(ScaledSum(list, 2), |list|, m.blue, c.rgbMin[2], c.rgbMin[2] + c.rgbWidth[2]);
  }

  lemma CubesShaped(cubes: seq<Cube>, next: seq<int>, lists: seq<seq<nat>>, sampled: seq<nat>)
    requires Cut(cubes, next, lists, sampled)
    ensures forall i :: 0 <= i < |cubes| ==> |cubes[i].rgbWidth| == 3
  {
    forall i | 0 <= i < |cubes|
      ensures |cubes[i].rgbWidth| == 3
    {
      BoxShape(cubes[i], lists[i]);
    }
  }

  lemma ListShaped(cubes: seq<Cube>, next: seq<int>, lists: seq<seq<nat>>, sampled: seq<nat>, i: nat)
    requires Cut(cubes, next, lists, sampled) && i < |cubes|
    ensures i < |lists| && Linked(cubes[i], next, lists[i])
    ensures Distinct(lists[i]) && AreColors(lists[i]) && |lists[i]| == cubes[i].numEntries
  {
  }

  lemma {:induction false} TotalBound(lists: seq<seq<nat>>)
    requires forall i :: 0 <= i < |lists| ==> lists[i] != []
    ensures Total(lists) >= |lists|
    ensures (forall i :: 0 <= i < |lists| ==> |lists[i]| <= 1) ==> Total(lists) == |lists|
  {
    if lists != [] {
      TotalBound(lists[..|lists| - 1]);
    }
  }

  /** No cube is empty, so there are not more cubes than colours; */
  lemma EnoughColors(cubes: seq<Cube>, next: seq<int>, lists: seq<seq<nat>>, sampled: seq<nat>)
    requires Cut(cubes, next, lists, sampled)
    ensures |cubes| <= |sampled|
  {
    forall i | 0 <= i < |lists|
      ensures lists[i] != []
    {
      ListShaped(cubes, next, lists, sampled, i);
    }
    TotalBound(lists);
  }

  /** when none can be split any more, there are as many. */
  lemma Singletons(cubes: seq<Cube>, next: seq<int>, lists: seq<seq<nat>>, sampled: seq<nat>)
    requires Cut(cubes, next, lists, sampled) && forall i :: 0 <= i < |cubes| ==> cubes[i].numEntries <= 1
    ensures |cubes| == |sampled|
  {
    forall i | 0 <= i < |lists|
      ensures |lists[i]| == 1
    {
      ListShaped(cubes, next, lists, sampled, i);
    }
    TotalBound(lists);
  }
}
