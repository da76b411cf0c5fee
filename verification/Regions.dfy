/** The regions into which the coordinator cuts hash space (crates/server,
    `legacy_partition_points`, `legacy_generate_regions`). */
module Regions {
  import opened Arithmetic
  import opened Base
  import opened Wire

  /** The width of an interval. For a single one the source's product wraps
      around to zero, as `IntervalIsWrapped` says. */
  function Interval(intervals: nat): nat
    requires intervals > 0
  {
    if intervals == 1 then 0 else TWO_63 / intervals * 2
  }

  lemma IntervalIsWrapped(intervals: nat)
    requires intervals > 0
    ensures Interval(intervals) == TWO_63 / intervals * 2 % TWO_64
  {
    if intervals > 1 {
      var q := TWO_63 / intervals;
      assert TWO_63 == intervals * q + TWO_63 % intervals;
      MulMono(2, intervals, q);
    }
  }

  function LowerPoint(intervals: nat, i: nat): nat
    requires intervals > 0
  {
    i * Interval(intervals)
  }

  function UpperPoint(intervals: nat, i: nat): int
    requires intervals > 0
  {
    if i == intervals - 1 then TWO_64 - 1 else LowerPoint(intervals, i + 1) - 1
  }

  /** The interval of the one-dimensional cut that holds `x`. */
  function IntervalOf(intervals: nat, x: u64): (i: nat)
    requires 1 <= intervals <= TWO_63
    ensures i < intervals
  {
    if intervals == 1 then 0
    else
      IntervalBounds(intervals);
      Capped(x, Interval(intervals), intervals)
  }

  function Capped(x: nat, width: nat, intervals: nat): (i: nat)
    requires width > 0 && intervals > 0
    ensures i < intervals
  {
    Min(x / width, intervals - 1)
  }

  lemma IntervalBounds(intervals: nat)
    requires 2 <= intervals <= TWO_63
    ensures Interval(intervals) >= 2
    ensures intervals * Interval(intervals) == TWO_64 - 2 * (TWO_63 % intervals)
  {
    var q, r := TWO_63 / intervals, TWO_63 % intervals;
    assert TWO_63 == intervals * q + r;
    assert intervals * (q * 2) == 2 * (intervals * q);
  }

  lemma LowerPointInRange(intervals: nat, i: nat)
    requires 1 <= intervals <= TWO_63 && i < intervals
    ensures LowerPoint(intervals, i) < TWO_64
    ensures i > 0 ==> LowerPoint(intervals, i) > 0
  {
    if intervals > 1 {
      IntervalBounds(intervals);
      MulStrictMono(i, intervals, Interval(intervals));
      if i > 0 { MulStrictMono(0, i, Interval(intervals)); }
    }
  }

  /** The cut leaves no gap and no overlap: interval `i` holds `x` exactly when
      `i` is the interval of `x`. */
  lemma PointsPartition(intervals: nat, i: nat, x: u64)
    requires 1 <= intervals <= TWO_63 && i < intervals
    ensures LowerPoint(intervals, i) <= x <= UpperPoint(intervals, i) <==> i == IntervalOf(intervals, x)
  {
    if intervals > 1 {
      IntervalBounds(intervals);
      var q := Interval(intervals);
      var d := x / q;
      QuotientExact(x, q, i);
      QuotientExact(x, q, i + 1);
    }
  }

  /** The source's two loops over one dimension. */
  method PartitionPoints(intervals: nat) returns (lowers: seq<u64>, uppers: seq<u64>)
    requires 1 <= intervals <= TWO_63
    ensures |lowers| == |uppers| == intervals
    ensures forall i :: 0 <= i < intervals ==> lowers[i] == LowerPoint(intervals, i) && uppers[i] == UpperPoint(intervals, i)
  {
    var interval := Interval(intervals);
    lowers, uppers := [], [];
    for index := 0 to intervals
      invariant |lowers| == index
      invariant forall i :: 0 <= i < index ==> lowers[i] == LowerPoint(intervals, i)
    {
      LowerPointInRange(intervals, index);
      lowers := lowers + [index * interval];
    }
    for index := 1 to intervals
      invariant |uppers| == index - 1
      invariant forall i :: 0 <= i < index - 1 ==> uppers[i] == LowerPoint(intervals, i + 1) - 1
    {
      LowerPointInRange(intervals, index);
      uppers := uppers + [lowers[index] - 1];
    }
    uppers := uppers + [TWO_64 - 1];
  }

  // ------------------------------------------------- boxes in several dimensions

  datatype Box = Box(lower: seq<int>, upper: seq<int>)

  predicate Inside(box: Box, point: seq<u64>) {
    |box.lower| == |box.upper| == |point|
    && forall i :: 0 <= i < |point| ==> box.lower[i] <= point[i] <= box.upper[i]
  }

  predicate Cuttable(dimensions: seq<nat>) {
    forall i :: 0 <= i < |dimensions| ==> 1 <= dimensions[i] <= TWO_63
  }

  /** The boxes that extend the corner pair (`lower`, `upper`) through the
      remaining dimensions, the last dimension varying fastest. */
  function Boxes(dimensions: seq<nat>, lower: seq<int>, upper: seq<int>): seq<Box>
    requires Cuttable(dimensions)
    decreases |dimensions|, 0, 0
  {
    if dimensions == [] then [Box(lower, upper)] else BoxesFrom(dimensions, 0, lower, upper)
  }

  function BoxesFrom(dimensions: seq<nat>, i: nat, lower: seq<int>, upper: seq<int>): seq<Box>
    requires dimensions != [] && Cuttable(dimensions) && i <= dimensions[0]
    decreases |dimensions| - 1, 1, dimensions[0] - i
  {
    var k := dimensions[0];
    if i == k then []
    else (
      Boxes(dimensions[1..], lower + [LowerPoint(k, i)], upper + [UpperPoint(k, i)])
      + BoxesFrom(dimensions, i + 1, lower, upper))
  }

  function Product(dimensions: seq<nat>): nat {
    if dimensions == [] then 1 else dimensions[0] * Product(dimensions[1..])
  }

  /** The box that holds a point, counted in mixed radix. */
  ghost function BoxOf(dimensions: seq<nat>, point: seq<u64>): (b: nat)
    requires Cuttable(dimensions) && |point| == |dimensions|
    ensures b < Product(dimensions)
  {
    if dimensions == [] then 0
    else
      var rest := BoxOf(dimensions[1..], point[1..]);
      DigitBound(IntervalOf(dimensions[0], point[0]), dimensions[0], rest, Product(dimensions[1..]));
      IntervalOf(dimensions[0], point[0]) * Product(dimensions[1..]) + rest
  }

  lemma DigitBound(digit: nat, base: nat, rest: nat, size: nat)
    requires digit < base && rest < size
    ensures 0 <= digit * size + rest < base * size
  {
    MulMono(digit + 1, base, size);
  }

  lemma SameNumeral(a: nat, x: nat, b: nat, y: nat, size: nat)
    requires x < size && y < size
    ensures a * size + x == b * size + y <==> a == b && x == y
  {
    if a < b { MulMono(a + 1, b, size); }
    if b < a { MulMono(b + 1, a, size); }
  }

  lemma InsideExtended(lower: seq<int>, upper: seq<int>, prefix: seq<u64>, l: int, u: int, x: u64)
    requires |lower| == |upper| == |prefix|
    ensures Inside(Box(lower + [l], upper + [u]), prefix + [x])
        <==> Inside(Box(lower, upper), prefix) && l <= x <= u
  {
    var box, point := Box(lower + [l], upper + [u]), prefix + [x];
    if Inside(box, point) {
      assert box.lower[|prefix|] <= point[|prefix|] <= box.upper[|prefix|];
      forall i | 0 <= i < |prefix| ensures lower[i] <= prefix[i] <= upper[i] {
        assert box.lower[i] <= point[i] <= box.upper[i];
      }
    }
  }

  /** Among boxes numbered from `first`, the one numbered `target` holds the
      point and no other does; when `on` is false none does. */
  ghost predicate HeldBy(boxes: seq<Box>, first: int, target: int, on: bool, point: seq<u64>) {
    forall b :: 0 <= b < |boxes| ==> (Inside(boxes[b], point) <==> on && first + b == target)
  }

  lemma NothingHeld(first: int, target: int, on: bool, point: seq<u64>)
    ensures HeldBy([], first, target, on, point)
  {
  }

  lemma HeldByConcat(here: seq<Box>, more: seq<Box>, first: int, target: int, on: bool, point: seq<u64>)
    requires HeldBy(here, first, target, on, point)
    requires HeldBy(more, first + |here|, target, on, point)
    ensures HeldBy(here + more, first, target, on, point)
  {
  }

  lemma HeldByDigit(boxes: seq<Box>, i: nat, digit: nat, target: nat, size: nat, on: bool, point: seq<u64>)
    requires |boxes| == size && target < size
    requires HeldBy(boxes, 0, target, on && i == digit, point)
    ensures HeldBy(boxes, i * size, digit * size + target, on, point)
  {
    forall b | 0 <= b < size ensures Inside(boxes[b], point) <==> on && i * size + b == digit * size + target {
      SameNumeral(i, b, digit, target, size);
    }
  }

  /** Box number `b` of the cut holds a point exactly when `b` is the point's
      own number: every point lies in one box and in no other. */
  lemma {:induction false} BoxesCut(dimensions: seq<nat>, lower: seq<int>, upper: seq<int>, prefix: seq<u64>, point: seq<u64>)
    requires Cuttable(dimensions) && |point| == |dimensions| && |lower| == |upper| == |prefix|
    ensures |Boxes(dimensions, lower, upper)| == Product(dimensions)
    ensures HeldBy(Boxes(dimensions, lower, upper), 0, BoxOf(dimensions, point),
                   Inside(Box(lower, upper), prefix), prefix + point)
    decreases |dimensions|, 0, 0
  {
    if dimensions == [] {
      assert prefix + point == prefix;
    } else {
      BoxesFromCut(dimensions, 0, lower, upper, prefix, point);
    }
  }

  lemma {:induction false} BoxesFromCut(dimensions: seq<nat>, i: nat, lower: seq<int>, upper: seq<int>,
                                        prefix: seq<u64>, point: seq<u64>)
    requires dimensions != [] && Cuttable(dimensions) && |point| == |dimensions| && |lower| == |upper| == |prefix|
    requires i <= dimensions[0]
    ensures |BoxesFrom(dimensions, i, lower, upper)| == (dimensions[0] - i) * Product(dimensions[1..])
    ensures HeldBy(BoxesFrom(dimensions, i, lower, upper), i * Product(dimensions[1..]), BoxOf(dimensions, point),
                   Inside(Box(lower, upper), prefix), prefix + point)
    decreases |dimensions| - 1, 1, dimensions[0] - i
  {
    hide LowerPoint, UpperPoint, IntervalOf, Inside, HeldBy;
    var k, rest := dimensions[0], dimensions[1..];
    if i == k {
      NothingHeld(i * Product(rest), BoxOf(dimensions, point), Inside(Box(lower, upper), prefix), prefix + point);
    } else {
      var size := Product(rest);
      var l, u := LowerPoint(k, i), UpperPoint(k, i);
      var here := Boxes(rest, lower + [l], upper + [u]);
      var on := Inside(Box(lower, upper), prefix);
      BoxesCut(rest, lower + [l], upper + [u], prefix + [point[0]], point[1..]);
      assert prefix + [point[0]] + point[1..] == prefix + point;
      InsideExtended(lower, upper, prefix, l, u, point[0]);
      PointsPartition(k, i, point[0]);
      HeldByDigit(here, i, IntervalOf(k, point[0]), BoxOf(rest, point[1..]), size, on, prefix + point);
      BoxesFromCut(dimensions, i + 1, lower, upper, prefix, point);
      assert (i + 1) * size == i * size + size && (k - i) * size == size + (k - (i + 1)) * size;
      HeldByConcat(here, BoxesFrom(dimensions, i + 1, lower, upper), i * size, BoxOf(dimensions, point), on, prefix + point);
    }
  }

  /** The regions of a subspace number the product of its dimensions and every
      point of hash space lies in exactly one of them. */
  lemma RegionsPartitionHashSpace(dimensions: seq<nat>, point: seq<u64>)
    requires Cuttable(dimensions) && |point| == |dimensions|
    ensures |Boxes(dimensions, [], [])| == Product(dimensions)
    ensures exists b :: 0 <= b < Product(dimensions) && Inside(Boxes(dimensions, [], [])[b], point)
    ensures forall b, c | 0 <= b < Product(dimensions) && 0 <= c < Product(dimensions) ::
      (Inside(Boxes(dimensions, [], [])[b], point) && Inside(Boxes(dimensions, [], [])[c], point)) ==> b == c
  {
    BoxesCut(dimensions, [], [], [], point);
    assert [] + point == point;
    assert Inside(Boxes(dimensions, [], [])[BoxOf(dimensions, point)], point);
  }

  /** In two dimensions: the boxes of the first interval come first, and among
      them those of the second dimension's intervals in order. */
  lemma BoxesOfTwo(m: nat, n: nat, i: nat, j: nat)
    requires i < m <= TWO_63 && j < n <= TWO_63
    ensures 0 <= i * n + j < |Boxes([m, n], [], [])|
    ensures Boxes([m, n], [], [])[i * n + j]
         == Box([LowerPoint(m, i), LowerPoint(n, j)], [UpperPoint(m, i), UpperPoint(n, j)])
  {
    hide LowerPoint, UpperPoint;
    BoxesOfTwoFrom(m, n, 0, i, j);
  }

  lemma {:induction false} BoxesOfTwoFrom(m: nat, n: nat, first: nat, i: nat, j: nat)
    requires first <= i < m <= TWO_63 && j < n <= TWO_63
    ensures 0 <= (i - first) * n + j < |BoxesFrom([m, n], first, [], [])|
    ensures BoxesFrom([m, n], first, [], [])[(i - first) * n + j]
         == Box([LowerPoint(m, i), LowerPoint(n, j)], [UpperPoint(m, i), UpperPoint(n, j)])
    decreases i - first
  {
    hide LowerPoint, UpperPoint;
    var l, u := LowerPoint(m, first), UpperPoint(m, first);
    var here, more := Boxes([n], [l], [u]), BoxesFrom([m, n], first + 1, [], []);
    assert [m, n][1..] == [n] && [] + [l] == [l] && [] + [u] == [u];
    assert BoxesFrom([m, n], first, [], []) == here + more;
    LastDimension(n, 0, [l], [u], if first == i then j else 0);
    if first < i {
      BoxesOfTwoFrom(m, n, first + 1, i, j);
      assert (i - first) * n + j == n + ((i - first - 1) * n + j);
      assert (here + more)[n + ((i - first - 1) * n + j)] == more[(i - first - 1) * n + j];
    }
  }

  lemma {:induction false} LastDimension(n: nat, first: nat, lower: seq<int>, upper: seq<int>, j: nat)
    requires first <= j < n <= TWO_63
    ensures |BoxesFrom([n], first, lower, upper)| == n - first
    ensures BoxesFrom([n], first, lower, upper)[j - first] == Box(lower + [LowerPoint(n, j)], upper + [UpperPoint(n, j)])
    decreases n - first
  {
    hide LowerPoint, UpperPoint;
    assert [n][1..] == [];
    if first + 1 < n { LastDimension(n, first + 1, lower, upper, if first == j then first + 1 else j); }
  }

  predicate PointsOf(intervals: nat, lowers: seq<u64>, uppers: seq<u64>)
    requires intervals > 0
  {
    && |lowers| == |uppers| == intervals
    && forall i :: 0 <= i < intervals ==> lowers[i] == LowerPoint(intervals, i) && uppers[i] == UpperPoint(intervals, i)
  }

  /** The source's recursion: it overwrites one pair of coordinate buffers and
      copies them out at each leaf. The coordinates below `idx` are untouched. */
  method GenerateRegions(
      idx: nat, dimensions: seq<nat>,
      bigger: nat, biggerLbs: seq<u64>, biggerUbs: seq<u64>,
      smaller: nat, smallerLbs: seq<u64>, smallerUbs: seq<u64>,
      lower: array<u64>, upper: array<u64>, regions: seq<Box>) returns (out: seq<Box>)
    requires Cuttable(dimensions) && idx <= |dimensions| == lower.Length == upper.Length && lower != upper
    requires 1 <= bigger && PointsOf(bigger, biggerLbs, biggerUbs)
    requires 1 <= smaller && PointsOf(smaller, smallerLbs, smallerUbs)
    requires forall i :: 0 <= i < |dimensions| ==> dimensions[i] == bigger || dimensions[i] == smaller
    modifies lower, upper
    ensures lower[..idx] == old(lower[..idx]) && upper[..idx] == old(upper[..idx])
    ensures out == regions + Boxes(dimensions[idx..], old(lower[..idx]), old(upper[..idx]))
    decreases |dimensions| - idx
  {
    hide LowerPoint, UpperPoint;
    if idx >= |dimensions| {
      assert lower[..] == lower[..idx] && upper[..] == upper[..idx];
      return regions + [Box(lower[..], upper[..])];
    }
    var lbs, ubs := smallerLbs, smallerUbs;
    if dimensions[idx] == bigger {
      lbs, ubs := biggerLbs, biggerUbs;
    }
    ghost var rest := dimensions[idx..];
    ghost var l0, u0 := lower[..idx], upper[..idx];
    assert rest[1..] == dimensions[idx + 1..];
    out := regions;
    for i := 0 to |lbs|
      invariant lower[..idx] == l0 && upper[..idx] == u0
      invariant out + BoxesFrom(rest, i, l0, u0) == regions + BoxesFrom(rest, 0, l0, u0)
    {
      lower[idx] := lbs[i];
      upper[idx] := ubs[i];
      assert lower[..idx + 1] == l0 + [lbs[i]] && upper[..idx + 1] == u0 + [ubs[i]];
      ghost var before, more := out, BoxesFrom(rest, i + 1, l0, u0);
      out := GenerateRegions(idx + 1, dimensions, bigger, biggerLbs, biggerUbs,
                             smaller, smallerLbs, smallerUbs, lower, upper, out);
      PrefixOfPrefix(lower[..idx + 1], lower[..idx], l0, lbs[i]);
      PrefixOfPrefix(upper[..idx + 1], upper[..idx], u0, ubs[i]);
      Assoc(before, Boxes(rest[1..], l0 + [lbs[i]], u0 + [ubs[i]]), more);
    }
  }

  lemma PrefixOfPrefix(longer: seq<u64>, shorter: seq<u64>, p: seq<u64>, x: u64)
    requires longer == p + [x] && |shorter| == |p| && shorter == longer[..|p|]
    ensures shorter == p
  {
  }
}
