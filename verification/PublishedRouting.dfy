/** The key subspace the coordinator publishes and its agreement with the
    daemons' own routing (crates/server, `encode_legacy_subspace`,
    `legacy_locate_string_key`). */
module PublishedRouting {
  import opened Arithmetic
  import opened Base
  import opened DataModel
  import opened Regions
  import opened Routing

  datatype Region = Region(lower: int, upper: int, replicas: seq<NodeId>)

  /** What the coordinator publishes for the one-dimensional key subspace. */
  function KeySubspaceRegions(serverIds: seq<NodeId>, options: SpaceOptions): (regions: seq<Region>)
    requires options.partitions > 0
    ensures |regions| == options.partitions
  {
    var sets := ReplicaSets(serverIds, ReplicaCount(|serverIds|, options.faultTolerance), options.partitions);
    seq(options.partitions, i requires 0 <= i < options.partitions =>
      Region(LowerPoint(options.partitions, i), UpperPoint(options.partitions, i),
             if sets == [] then []
             else (ChosenSetInRange(i, |sets|, options.partitions); sets[i * |sets| / options.partitions])))
  }

  /** The region a client finds for a hash is the daemon's region or the next one. */
  lemma PublishedIndexClose(partitions: u32, hash: u64)
    requires 1 <= partitions <= 0x8000_0000
    ensures RegionForHash(hash, partitions) <= IntervalOf(partitions, hash) <= RegionForHash(hash, partitions) + 1
  {
    RegionInRange(hash, partitions);
    if partitions > 1 { SeveralIndexClose(partitions, hash); }
  }

  lemma SeveralIndexClose(partitions: u32, hash: u64)
    requires 2 <= partitions <= 0x8000_0000
    ensures RegionForHash(hash, partitions) <= IntervalOf(partitions, hash) <= RegionForHash(hash, partitions) + 1
  {
    IntervalBounds(partitions);
    RegionInRange(hash, partitions);
    var q, l, d := Interval(partitions), RegionForHash(hash, partitions), IntervalOf(partitions, hash);
    LocatedAtMostPublished(hash, partitions, q, l);
    QuotientExact(hash, q, l);
    QuotientExact(hash, q, d);
    if d > 0 { PublishedAtMostNext(hash, partitions, q, d); }
  }

  lemma LocatedAtMostPublished(hash: u64, partitions: u32, q: nat, l: nat)
    requires partitions > 0 && partitions * q <= TWO_64 && l == hash * partitions / TWO_64
    ensures l * q <= hash
  {
    MulMono(partitions * q, TWO_64, l);
    assert l * q * partitions == l * (partitions * q);
    CancelFactor(l * q, hash, partitions);
  }

  lemma CancelFactor(a: int, b: int, c: int)
    requires c > 0 && a * c <= b * c
    ensures a <= b
  {
    if a > b { MulStrictMono(b, a, c); }
  }

  lemma PublishedAtMostNext(hash: u64, partitions: u32, q: nat, d: nat)
    requires 2 <= partitions <= 0x8000_0000 && q == Interval(partitions)
    requires 0 < d < partitions && d * q <= hash
    ensures d - 1 <= hash * partitions / TWO_64
  {
    IntervalBounds(partitions);
    var r := TWO_63 % partitions;
    MulMono(d * q, hash, partitions);
    assert d * q * partitions == d * (partitions * q);
    assert d * (TWO_64 - 2 * r) == d * TWO_64 - 2 * (d * r);
    MulMono(d, 0x8000_0000, r);
    MulMono(r, 0x8000_0000, 0x8000_0000);
    QuotientExact(hash * partitions, TWO_64, d - 1);
  }

  /** Published and located regions coincide on every hash exactly when the
      partition count divides 2^63. */
  lemma PublishedIndexExact(partitions: u32)
    requires partitions > 0
    ensures (forall hash: u64 :: IntervalOf(partitions, hash) == RegionForHash(hash, partitions))
      <==> TWO_63 % partitions == 0
  {
    hide IntervalOf, RegionForHash;
    if TWO_63 % partitions == 0 {
      forall hash: u64 ensures IntervalOf(partitions, hash) == RegionForHash(hash, partitions) {
        SameIndex(partitions, hash);
      }
    } else {
      FirstDifference(partitions);
    }
  }

  lemma SameIndex(partitions: u32, hash: u64)
    requires partitions > 0 && TWO_63 % partitions == 0
    ensures IntervalOf(partitions, hash) == RegionForHash(hash, partitions)
  {
    hide Interval;
    RegionInRange(hash, partitions);
    if partitions > 1 {
      IntervalBounds(partitions);
      var q := Interval(partitions);
      var d := hash / q;
      QuotientExact(hash, q, d);
      QuotientExact(hash, q, d + 1);
      ExactCut(hash, partitions, q, d);
    }
  }

  /** The second published region starts a little before the second region of
      the daemons. */
  lemma FirstDifference(partitions: u32)
    requires partitions > 0 && TWO_63 % partitions != 0
    ensures Interval(partitions) < TWO_64
    ensures IntervalOf(partitions, Interval(partitions)) != RegionForHash(Interval(partitions), partitions)
  {
    hide Interval;
    IntervalBounds(partitions);
    var q := Interval(partitions);
    MulMono(2, partitions, q);
    QuotientExact(q, q, 1);
    assert q * partitions == partitions * q;
    assert RegionForHash(q, partitions) == 0;
  }

  lemma ExactCut(hash: u64, partitions: u32, q: nat, d: nat)
    requires partitions > 0 && partitions * q == TWO_64 && d * q <= hash < (d + 1) * q
    ensures hash * partitions / TWO_64 == d
  {
    MulMono(d * q, hash, partitions);
    MulStrictMono(hash, (d + 1) * q, partitions);
    assert d * q * partitions == d * TWO_64 && (d + 1) * q * partitions == (d + 1) * TWO_64;
    QuotientExact(hash * partitions, TWO_64, d);
    QuotientExact(hash * partitions, TWO_64, d + 1);
  }

  /** The divisors of a power of two are the smaller powers of two. */
  lemma {:induction false} DivisorOfPow2(p: nat, m: nat, e: nat)
    requires p * m == Pow2(e)
    ensures exists f :: 0 <= f <= e && p == Pow2(f)
  {
    if e == 0 {
      if p > 1 { MulMono(2, p, m); }
      assert p == Pow2(0);
    } else if m % 2 == 0 {
      assert p * m == 2 * (p * (m / 2));
      DivisorOfPow2(p, m / 2, e - 1);
    } else {
      OddProduct(p, m);
      assert p * m == 2 * (p / 2 * m);
      DivisorOfPow2(p / 2, m, e - 1);
      var f :| 0 <= f <= e - 1 && p / 2 == Pow2(f);
      assert p == Pow2(f + 1);
    }
  }

  lemma OddProduct(p: nat, m: nat)
    requires m % 2 == 1 && p * m % 2 == 0
    ensures p % 2 == 0
  {
    var a, b, c := p / 2, m / 2, p % 2;
    assert p * m == 2 * (2 * a * b + a + c * b) + c;
  }

  predicate PowerOfTwo(p: nat) { exists e :: 0 <= e <= 63 && p == Pow2(e) }

  /** The condition of `PublishedIndexExact`, in a form an administrator can
      read off the partition count. */
  lemma DividesIffPowerOfTwo(partitions: u32)
    requires partitions > 0
    ensures TWO_63 % partitions == 0 <==> PowerOfTwo(partitions)
  {
    Pow63();
    var m := TWO_63 / partitions;
    if TWO_63 % partitions == 0 {
      DivisorOfPow2(partitions, m, 63);
    } else if PowerOfTwo(partitions) {
      var e :| 0 <= e <= 63 && partitions == Pow2(e);
      Pow2Splits(63, e);
      RemainderOfMultiple(partitions, Pow2(63 - e));
      assert false;
    }
  }

  lemma RemainderOfMultiple(p: nat, m: nat)
    requires p > 0
    ensures p * m % p == 0
  {
    var x := p * m;
    var d := m - x / p;
    assert p * d == x % p;
    if d >= 1 { MulMono(1, d, p); } else { MulMono(d, 0, p); }
  }

  /** A client that finds a hash in the region is sent to the very replicas the
      daemons use. */
  predicate RoutedAlike(region: Region, layout: seq<NodeId>, options: SpaceOptions, hash: u64) {
    region.lower <= hash <= region.upper ==>
      Locate(layout, options, hash).Ok? && region.replicas == Locate(layout, options, hash).value.replicas
  }

  /** With a power-of-two partition count every published region routes as the
      daemons do. */
  lemma PublishedRoutingAgrees(layout: seq<NodeId>, options: SpaceOptions, hash: u64, i: nat)
    requires layout != [] && Distinct(layout)
    requires PowerOfTwo(options.partitions) && i < options.partitions
    ensures RoutedAlike(KeySubspaceRegions(layout, options)[i], layout, options, hash)
  {
    hide LowerPoint, UpperPoint, IntervalOf, PowerOfTwo;
    DividesIffPowerOfTwo(options.partitions);
    PublishedIndexExact(options.partitions);
    PointsPartition(options.partitions, i, hash);
    LocateWellFormed(layout, options, hash);
  }

  /** Published and daemon routing agree for every cluster and every key. */
  ghost predicate RoutingAgrees(partitions: u32)
    requires partitions > 0
  {
    forall layout: seq<NodeId>, options: SpaceOptions, hash: u64, i: nat |
      layout != [] && Distinct(layout) && options.partitions == partitions && i < partitions ::
      RoutedAlike(KeySubspaceRegions(layout, options)[i], layout, options, hash)
  }

  /** ... exactly when the partition count is a power of two: for any other
      count there is a cluster in which some hash is published on one server
      and served by another. */
  lemma RoutingAgreesExactly(partitions: u32)
    requires partitions > 0
    ensures RoutingAgrees(partitions) <==> PowerOfTwo(partitions)
  {
    hide RoutedAlike, KeySubspaceRegions, IntervalOf, RegionForHash;
    if PowerOfTwo(partitions) {
      forall layout: seq<NodeId>, options: SpaceOptions, hash: u64, i: nat |
        layout != [] && Distinct(layout) && options.partitions == partitions && i < partitions
        ensures RoutedAlike(KeySubspaceRegions(layout, options)[i], layout, options, hash)
      {
        PublishedRoutingAgrees(layout, options, hash, i);
      }
    } else {
      DividesIffPowerOfTwo(partitions);
      PublishedIndexExact(partitions);
      var hash: u64 :| IntervalOf(partitions, hash) != RegionForHash(hash, partitions);
      var layout, options := FirstServers(partitions), SpaceOptions(0, partitions, HyperDexDsl);
      OneServerPerPartition(partitions, hash);
      assert Distinct(layout) && layout != [];
      assert !RoutedAlike(KeySubspaceRegions(layout, options)[IntervalOf(partitions, hash)], layout, options, hash);
    }
  }

  function FirstServers(count: u32): seq<NodeId> { seq(count, i requires 0 <= i < count => i) }

  /** On as many servers as partitions and no fault tolerance, region `i` is
      published on server `i` and served by the server of the located region. */
  lemma OneServerPerPartition(partitions: u32, hash: u64)
    requires partitions > 0
    ensures var layout, options := FirstServers(partitions), SpaceOptions(0, partitions, HyperDexDsl);
      RoutedAlike(KeySubspaceRegions(layout, options)[IntervalOf(partitions, hash)], layout, options, hash)
      ==> IntervalOf(partitions, hash) == RegionForHash(hash, partitions)
  {
    var layout, options := FirstServers(partitions), SpaceOptions(0, partitions, HyperDexDsl);
    var published, located := IntervalOf(partitions, hash), RegionForHash(hash, partitions);
    RegionInRange(hash, partitions);
    LocateWellFormed(layout, options, hash);
    SingleSets(layout, partitions, 0, published);
    SingleSets(layout, partitions, 0, located);
    ExactMultiple(published, partitions);
    ExactMultiple(located, partitions);
    MulStrictMono(published, partitions, partitions);
    MulStrictMono(located, partitions, partitions);
    PointsPartition(partitions, published, hash);
    assert KeySubspaceRegions(layout, options)[published].replicas == [published];
    assert Locate(layout, options, hash).value.replicas == [located];
  }

  lemma ExactMultiple(i: nat, p: nat)
    requires p > 0
    ensures i * (p * p) / p == i * p && i * p / p == i
  {
    QuotientExact(i * p, p, i);
    QuotientExact(i * p, p, i + 1);
    assert i * (p * p) == i * p * p;
    QuotientExact(i * p * p, p, i * p);
    QuotientExact(i * p * p, p, i * p + 1);
  }

  /** Without fault tolerance each server stands alone, `partitions` times over. */
  lemma {:induction false} SingleSets(ids: seq<NodeId>, partitions: nat, start: nat, s: nat)
    requires start + s < |ids| && partitions > 0
    ensures |SetsStarting(ids, 1, partitions, start)| == (|ids| - start) * partitions
    ensures s * partitions < |SetsStarting(ids, 1, partitions, start)|
    ensures SetsStarting(ids, 1, partitions, start)[s * partitions] == [ids[start + s]]
    decreases |ids| - start
  {
    var here, rest := SetsFrom(ids, 1, partitions, start, 1), SetsStarting(ids, 1, partitions, start + 1);
    SingleSetsFrom(ids, partitions, start, 1);
    OneMoreTime(|ids| - start, partitions);
    MulStrictMono(s, |ids| - start, partitions);
    hide SetsFrom;
    if start + 1 < |ids| {
      SingleSets(ids, partitions, start + 1, if s == 0 then 0 else s - 1);
    }
    if s == 0 {
      assert (here + rest)[0] == here[0] && here[0] in here;
    } else {
      OneMoreTime(s, partitions);
      assert (here + rest)[partitions + (s - 1) * partitions] == rest[(s - 1) * partitions];
    }
  }

  lemma OneMoreTime(n: nat, p: nat)
    requires n > 0
    ensures n * p == p + (n - 1) * p
  {
  }

  lemma {:induction false} SingleSetsFrom(ids: seq<NodeId>, partitions: nat, start: nat, stride: nat)
    requires start < |ids| && 0 < stride <= partitions + 1
    ensures |SetsFrom(ids, 1, partitions, start, stride)| == partitions + 1 - stride
    ensures forall s :: s in SetsFrom(ids, 1, partitions, start, stride) ==> s == [ids[start]]
    decreases partitions + 1 - stride
  {
    if stride <= partitions {
      SingleSetsFrom(ids, partitions, start, stride + 1);
      assert Strided(ids, start, stride, 1) == [ids[start]];
    }
  }

  /** Without that condition the two can differ: three servers, three
      partitions, and the first hash of the second published region. */
  lemma PublishedRoutingDisagrees()
    ensures var layout, options, hash := [1, 2, 3], SpaceOptions(0, 3, HyperDexDsl), 6148914691236517204;
      && KeySubspaceRegions(layout, options)[1].lower <= hash <= KeySubspaceRegions(layout, options)[1].upper
      && KeySubspaceRegions(layout, options)[1].replicas == [2]
      && Locate(layout, options, hash).Ok?
      && Locate(layout, options, hash).value.replicas == [1]
  {
    SingleSets([1, 2, 3], 3, 0, 0);
    SingleSets([1, 2, 3], 3, 0, 1);
  }
}
