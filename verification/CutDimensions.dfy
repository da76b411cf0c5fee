/** How many intervals each dimension of a subspace is cut into
    (crates/server, `legacy_partition_regions`). */
module CutDimensions {
  import opened Base
  import opened Regions

  /** How many leading dimensions get one interval more than the `root` of the
      partition count, when `count` is what the dimensions come to so far. */
  function Bumped(i: nat, count: nat, root: nat, width: nat, partitions: u32): (k: nat)
    requires root > 0 && i <= width
    ensures i <= k <= width
    decreases width - i
  {
    if i == width || count >= partitions then i else Bumped(i + 1, Widened(count, root), root, width, partitions)
  }

  /** A count of boxes after one of its dimensions went from `root` to one more. */
  function Widened(count: nat, root: nat): nat
    requires root > 0
  {
    count / root * (root + 1)
  }

  function Dimensions(root: nat, width: nat, partitions: u32): (d: seq<nat>)
    requires root > 0 && width > 0
    ensures |d| == width
  {
    var k := Bumped(0, width * root, root, width, partitions);
    seq(width, i => if i < k then root + 1 else root)
  }

  /** The source's loop over a vector of equal dimensions. */
  method PartitionDimensions(root: nat, width: nat, partitions: u32) returns (dimensions: seq<nat>)
    requires root > 0 && width > 0
    ensures dimensions == Dimensions(root, width, partitions)
  {
    hide Widened;
    dimensions := seq(width, _ => root);
    var count: nat := width * root;
    ghost var start := count;
    var i := 0;
    while i < width && count < partitions
      invariant i <= width && |dimensions| == width
      invariant forall j :: 0 <= j < width ==> dimensions[j] == if j < i then root + 1 else root
      invariant Bumped(i, count, root, width, partitions) == Bumped(0, start, root, width, partitions)
    {
      count := Widened(count, dimensions[i]);
      dimensions := dimensions[i := dimensions[i] + 1];
      i := i + 1;
    }
    BumpedStops(i, count, root, width, partitions);
  }

  lemma BumpedStops(i: nat, count: nat, root: nat, width: nat, partitions: u32)
    requires root > 0 && i <= width && (i == width || count >= partitions)
    ensures Bumped(i, count, root, width, partitions) == i
  {
  }

  /** The source builds its cut points for the first and the last dimension
      only: there is no third size. One attribute alone gets every partition. */
  lemma TwoSizes(root: nat, width: nat, partitions: u32)
    requires root > 0 && width > 0
    ensures var d := Dimensions(root, width, partitions);
      forall i :: 0 <= i < width ==> d[i] == d[0] || d[i] == d[width - 1]
    ensures width == 1 && root == partitions ==> Dimensions(root, width, partitions) == [partitions]
  {
  }

  /** The count that steers the loop starts from the sum of the dimensions, not
      from their product, so the cut overshoots: two attributes get as many
      regions as there are partitions for one, four and six partitions only. */
  lemma TwoAttributeCut(root: nat, partitions: u32)
    requires root >= 1 && root * root <= partitions < (root + 1) * (root + 1)
    ensures Product(Dimensions(root, 2, partitions)) == partitions <==> partitions in {1, 4, 6}
  {
    hide Dimensions;
    if root == 1 {
      RootOfOne(partitions);
    } else if root == 2 {
      RootOfTwo(partitions);
    } else {
      Squares(root, partitions);
      WiderRoots(root, partitions);
      ProductOfTwo(root + 1, root + 1);
    }
  }

  lemma Squares(root: nat, partitions: u32)
    requires root >= 3 && root * root <= partitions < (root + 1) * (root + 1)
    ensures 2 * root < partitions && 2 * (root + 1) < partitions && partitions != (root + 1) * (root + 1)
  {
    assert root * root >= 3 * root;
  }

  lemma WiderRoots(root: nat, partitions: u32)
    requires root > 0 && 2 * root < partitions && 2 * (root + 1) < partitions
    ensures Dimensions(root, 2, partitions) == [root + 1, root + 1]
  {
    hide Widened;
    WidenedTwice(root);
    assert Bumped(1, 2 * (root + 1), root, 2, partitions) == 2;
  }

  lemma RootOfTwo(partitions: u32)
    requires 4 <= partitions < 9
    ensures Product(Dimensions(2, 2, partitions)) == partitions <==> partitions == 4 || partitions == 6
  {
    hide Widened;
    WidenedTwo();
    var d := Dimensions(2, 2, partitions);
    assert d == [d[0], d[1]];
    ProductOfTwo(d[0], d[1]);
    assert Bumped(1, 6, 2, 2, partitions) == if partitions <= 6 then 1 else 2;
  }

  lemma RootOfOne(partitions: u32)
    requires 1 <= partitions < 4
    ensures Product(Dimensions(1, 2, partitions)) == partitions <==> partitions == 1
  {
    hide Widened;
    WidenedTwo();
    var d := Dimensions(1, 2, partitions);
    assert d == [d[0], d[1]];
    ProductOfTwo(d[0], d[1]);
    assert Bumped(0, 2, 1, 2, partitions) == if partitions <= 2 then 0 else 1;
  }

  lemma ProductOfTwo(a: nat, b: nat)
    ensures Product([a, b]) == a * b
  {
    assert [a, b][1..] == [b] && [b][1..] == [];
    assert Product([b]) == b;
  }

  lemma WidenedTwice(root: nat)
    requires root > 0
    ensures Widened(2 * root, root) == 2 * (root + 1)
  {
    assert 2 * root / root == 2;
  }

  lemma WidenedTwo()
    ensures Widened(4, 2) == 6 && Widened(6, 2) == 9 && Widened(2, 1) == 4
  {
  }

  function Power(base: nat, e: nat): nat { if e == 0 then 1 else base * Power(base, e - 1) }

  /** The number of regions, when so many dimensions got one interval more. */
  lemma RegionsOfCut(root: nat, width: nat, partitions: u32)
    requires root > 0 && width > 0
    ensures var k := Bumped(0, width * root, root, width, partitions);
      Product(Dimensions(root, width, partitions)) == Power(root + 1, k) * Power(root, width - k)
  {
    var k := Bumped(0, width * root, root, width, partitions);
    ProductOfSizes(root, width, k, Dimensions(root, width, partitions));
  }

  lemma {:induction false} ProductOfSizes(root: nat, width: nat, k: nat, d: seq<nat>)
    requires k <= width == |d| && forall i :: 0 <= i < width ==> d[i] == if i < k then root + 1 else root
    ensures Product(d) == Power(root + 1, k) * Power(root, width - k)
  {
    if width > 0 {
      if k > 0 {
        ProductOfSizes(root, width - 1, k - 1, d[1..]);
        Regroup(root + 1, Power(root + 1, k - 1), Power(root, width - k));
      } else {
        ProductOfSizes(root, width - 1, 0, d[1..]);
      }
    }
  }

  lemma Regroup(a: nat, b: nat, c: nat)
    ensures a * (b * c) == a * b * c
  {
  }

  /** Three attributes and the default of sixty-four partitions, whose cube root
      is four: if its floating-point value falls below four the cut is into
      sixty-four, and if not into a hundred and twenty-five. */
  lemma ThreeAttributeCut()
    ensures Dimensions(3, 3, 64) == [4, 4, 4] && Product(Dimensions(3, 3, 64)) == 64
    ensures Dimensions(4, 3, 64) == [5, 5, 5] && Product(Dimensions(4, 3, 64)) == 125
  {
    assert Widened(9, 3) == 12 && Widened(12, 3) == 16 && Widened(12, 4) == 15 && Widened(15, 4) == 15;
    assert Bumped(2, 16, 3, 3, 64) == 3 && Bumped(1, 12, 3, 3, 64) == 3 && Bumped(0, 9, 3, 3, 64) == 3;
    assert Bumped(2, 15, 4, 3, 64) == 3 && Bumped(1, 15, 4, 3, 64) == 3 && Bumped(0, 12, 4, 3, 64) == 3;
    assert [5, 5, 5][1..] == [5, 5] && [4, 4, 4][1..] == [4, 4];
    ProductOfTwo(5, 5);
    ProductOfTwo(4, 4);
  }

  /** All the regions of a subspace, as the coordinator computes them. */
  method PartitionRegions(root: nat, width: nat, partitions: u32) returns (regions: seq<Box>)
    requires root > 0 && width > 0 && Cuttable(Dimensions(root, width, partitions))
    ensures regions == Boxes(Dimensions(root, width, partitions), [], [])
  {
    var dimensions := PartitionDimensions(root, width, partitions);
    TwoSizes(root, width, partitions);
    var bigger, smaller := dimensions[0], dimensions[width - 1];
    var biggerLbs, biggerUbs := PartitionPoints(bigger);
    var smallerLbs, smallerUbs := PartitionPoints(smaller);
    var lower, upper := new u64[width](_ => 0), new u64[width](_ => 0);
    regions := GenerateRegions(0, dimensions, bigger, biggerLbs, biggerUbs, smaller, smallerLbs, smallerUbs, lower, upper, []);
    assert dimensions[0..] == dimensions && lower[..0] == [] && upper[..0] == [];
  }
}
