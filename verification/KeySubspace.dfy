/** The key subspace in the bytes that the coordinator encodes, as a client reads
    it and routes by it (crates/server, `encode_legacy_subspace`). */
module KeySubspace {
  import opened Arithmetic
  import opened Base
  import opened CutDimensions
  import opened DataModel
  import opened PackedSpace
  import opened PublishedRouting
  import opened Regions
  import opened Routing
  import opened SpaceReader

  /** Boxes of a one-dimensional cut, from number `i` on. */
  lemma {:induction false} OneDimension(intervals: nat, i: nat)
    requires 1 <= intervals <= TWO_63 && i <= intervals
    ensures |BoxesFrom([intervals], i, [], [])| == intervals - i
    ensures forall k :: i <= k < intervals ==>
      BoxesFrom([intervals], i, [], [])[k - i] == Box([LowerPoint(intervals, k)], [UpperPoint(intervals, k)])
    decreases intervals - i
  {
    hide LowerPoint, UpperPoint;
    if i < intervals {
      var l, u := LowerPoint(intervals, i), UpperPoint(intervals, i);
      OneDimension(intervals, i + 1);
      assert [intervals][1..] == [] && [] + [l] == [l] && [] + [u] == [u];
      assert BoxesFrom([intervals], i, [], []) == [Box([l], [u])] + BoxesFrom([intervals], i + 1, [], []);
    }
  }

  /** Without tolerating duplicates, every replica set has this many servers. */
  function SetSize(space: Space, layout: seq<NodeId>): nat {
    if layout == [] then 0 else Min(|layout|, ReplicaCount(|layout|, space.options.faultTolerance))
  }

  function KeyServers(space: Space, layout: seq<NodeId>, i: nat): seq<NodeId>
    requires i < space.options.partitions
  {
    SetFor(SetsOf(space, layout), i, space.options.partitions)
  }

  lemma KeyServersCount(space: Space, layout: seq<NodeId>, i: nat)
    requires Distinct(layout) && i < space.options.partitions
    ensures |KeyServers(space, layout, i)| == SetSize(space, layout)
  {
    if layout != [] {
      hide ReplicaSets;
      var sets, count := SetsOf(space, layout), ReplicaCount(|layout|, space.options.faultTolerance);
      ReplicaSetsWellFormed(layout, count, space.options.partitions);
      ChosenSetInRange(i, |sets|, space.options.partitions);
      assert KeyServers(space, layout, i) in sets;
    }
  }

  lemma {:induction false} RegionIdAt(regions: seq<WireRegion>, i: nat)
    requires i < |regions|
    ensures |RegionIds(regions)| == |regions| && RegionIds(regions)[i] == regions[i].id
  {
    if |regions| > 1 { RegionIdAt(regions[1..], if i == 0 then 0 else i - 1); }
  }

  lemma {:induction false} SecondAt(pairs: seq<Pair>, j: nat)
    requires j < |pairs|
    ensures |Seconds(pairs)| == |pairs| && Seconds(pairs)[j] == pairs[j].second
  {
    if |pairs| > 1 { SecondAt(pairs[1..], if j == 0 then 0 else j - 1); }
  }

  /** With `n` replicas in every region, replica `j` of region `i` comes after
      `i` times `n` others and `j` of its own region. */
  lemma {:induction false} ReplicaIdAt(regions: seq<WireRegion>, n: nat, i: nat, j: nat)
    requires forall r :: r in regions ==> |r.replicas| == n
    requires i < |regions| && j < n
    ensures 0 <= i * n + j < |ReplicaIds(regions)| && ReplicaIds(regions)[i * n + j] == regions[i].replicas[j].second
  {
    assert regions[0] in regions;
    SecondAt(regions[0].replicas, j);
    if i > 0 {
      ReplicaIdAt(regions[1..], n, i - 1, j);
      OneMoreTime(i, n);
    }
  }

  /** Region `i` of the key subspace, field by field: its id, the bounds of its
      only dimension, and each of its servers with the id of that replica. */
  predicate KeyRegionIs(r: WireRegion, space: Space, layout: seq<NodeId>, next: nat, i: nat)
    requires i < space.options.partitions
  {
    && r.id == (next + 2 + i) % TWO_64
    && HasKeyBounds(r, space.options.partitions, i)
    && HasServers(r, KeyServers(space, layout, i))
    && forall j :: 0 <= j < |r.replicas| ==>
         r.replicas[j].second == (next + 2 + space.options.partitions + i * SetSize(space, layout) + j) % TWO_64
  }

  predicate HasKeyBounds(r: WireRegion, partitions: nat, i: nat)
    requires partitions > 0
  {
    |r.bounds| == 1 && r.bounds[0].first == LowerPoint(partitions, i) && r.bounds[0].second == UpperPoint(partitions, i)
  }

  predicate HasServers(r: WireRegion, servers: seq<NodeId>) {
    |r.replicas| == |servers| && forall j :: 0 <= j < |servers| ==> r.replicas[j].first == servers[j]
  }

  /** The space takes the first id handed out, the key subspace the second, its
      regions the next ones and their replicas those after them. */
  predicate KeySubspaceIs(w: WireSpace, space: Space, layout: seq<NodeId>, next: nat) {
    && w.id == next % TWO_64
    && w.subspaces != [] && w.subspaces[0].id == (next + 1) % TWO_64 && w.subspaces[0].indexes == [0]
    && |w.subspaces[0].regions| == space.options.partitions
    && forall i :: 0 <= i < space.options.partitions ==> KeyRegionIs(w.subspaces[0].regions[i], space, layout, next, i)
  }

  lemma KeySubspaceOnWire(space: Space, layout: seq<NodeId>, roots: Roots, next: nat)
    requires Distinct(layout) && EncodeSpace(space, layout, roots, next).Some?
    ensures ReadWireSpace(EncodeSpace(space, layout, roots, next).value.bytes).Some?
    ensures KeySubspaceIs(ReadWireSpace(EncodeSpace(space, layout, roots, next).value.bytes).value, space, layout, next)
  {
    WholeSpaceBack(space, layout, roots, next);
    hide EncodeSpace, ReadWireSpace, SpaceHolds, KeyRegionIs, KeyServers, SetSize, AllSubspaceIds;
    var encoded := EncodeSpace(space, layout, roots, next).value;
    var w := ReadWireSpace(encoded.bytes).value;
    EncodedHasPartitions(space, layout, roots, next);
    KeyRegionHolds(w, space, layout, roots, 0);
    KeyRegionIds(w, next, encoded.next - next, 0);
    forall i | 0 <= i < space.options.partitions ensures KeyRegionIs(w.subspaces[0].regions[i], space, layout, next, i) {
      KeyRegionBack(w, space, layout, roots, next, encoded.next - next, i);
    }
  }

  lemma EncodedHasPartitions(space: Space, layout: seq<NodeId>, roots: Roots, next: nat)
    requires EncodeSpace(space, layout, roots, next).Some?
    ensures space.options.partitions > 0
  {
    hide AttributeTable, ReplicaSets, EncodeSubspace, EncodeSubspaces, SpaceBytes, NamesOf, ReplicaCount, ShortNames;
  }

  lemma KeyRegionBack(w: WireSpace, space: Space, layout: seq<NodeId>, roots: Roots, next: nat, total: nat, i: nat)
    requires SpaceHolds(w, space, layout, roots) && Distinct(layout) && i < space.options.partitions
    requires [w.id] + AllSubspaceIds(w.subspaces) == Counting(next, total)
    ensures |w.subspaces| > 0 && i < |w.subspaces[0].regions| && KeyRegionIs(w.subspaces[0].regions[i], space, layout, next, i)
  {
    hide SpaceHolds, KeyServers, SetSize, HasKeyBounds, AllSubspaceIds, Counting;
    KeyRegionHolds(w, space, layout, roots, i);
    var regions, n := w.subspaces[0].regions, SetSize(space, layout);
    KeyRegionIds(w, next, total, i);
    forall r | r in regions ensures |r.replicas| == n {
      var k :| 0 <= k < |regions| && regions[k] == r;
      KeyRegionHolds(w, space, layout, roots, k);
      KeyServersCount(space, layout, k);
    }
    forall j | 0 <= j < |regions[i].replicas|
      ensures regions[i].replicas[j].second == (next + 2 + space.options.partitions + i * n + j) % TWO_64
    {
      KeyServersCount(space, layout, i);
      KeyReplicaId(w, next, total, n, i, j);
    }
  }

  lemma KeyRegionHolds(w: WireSpace, space: Space, layout: seq<NodeId>, roots: Roots, i: nat)
    requires SpaceHolds(w, space, layout, roots) && i < space.options.partitions
    ensures w.subspaces != [] && w.subspaces[0].indexes == [0] && |w.subspaces[0].regions| == space.options.partitions
    ensures HasKeyBounds(w.subspaces[0].regions[i], space.options.partitions, i)
    ensures HasServers(w.subspaces[0].regions[i], KeyServers(space, layout, i))
  {
    hide ReplicaSets, LowerPoint, UpperPoint, SetFor, AttributesHold, SubspacesHold, SetsOf, AttributeTable, RegionBoxes;
    KeyBoxes(roots, space.options.partitions, i);
  }

  lemma KeyBoxes(roots: Roots, partitions: u32, i: nat)
    requires i < partitions
    ensures RegionBoxes(roots, 1, partitions).Some? && |RegionBoxes(roots, 1, partitions).value| == partitions
    ensures RegionBoxes(roots, 1, partitions).value[i] == Box([LowerPoint(partitions, i)], [UpperPoint(partitions, i)])
  {
    hide LowerPoint, UpperPoint;
    TwoSizes(partitions, 1, partitions);
    OneDimension(partitions, 0);
  }

  lemma KeyRegionIds(w: WireSpace, next: nat, total: nat, i: nat)
    requires w.subspaces != [] && i < |w.subspaces[0].regions|
    requires [w.id] + AllSubspaceIds(w.subspaces) == Counting(next, total)
    ensures w.id == next % TWO_64 && w.subspaces[0].id == (next + 1) % TWO_64
    ensures w.subspaces[0].regions[i].id == (next + 2 + i) % TWO_64
  {
    var ids, key := [w.id] + AllSubspaceIds(w.subspaces), w.subspaces[0];
    RegionIdAt(key.regions, i);
    assert SubspaceIds(key)[0] == key.id && SubspaceIds(key)[1 + i] == RegionIds(key.regions)[i];
    assert ids[0] == w.id && ids[1] == SubspaceIds(key)[0] && ids[2 + i] == SubspaceIds(key)[1 + i];
  }

  lemma KeyReplicaId(w: WireSpace, next: nat, total: nat, n: nat, i: nat, j: nat)
    requires w.subspaces != [] && i < |w.subspaces[0].regions| && j < n
    requires forall r :: r in w.subspaces[0].regions ==> |r.replicas| == n
    requires [w.id] + AllSubspaceIds(w.subspaces) == Counting(next, total)
    ensures w.subspaces[0].regions[i].replicas[j].second == (next + 2 + |w.subspaces[0].regions| + i * n + j) % TWO_64
  {
    var ids, key := [w.id] + AllSubspaceIds(w.subspaces), w.subspaces[0];
    RegionIdAt(key.regions, i);
    ReplicaIdAt(key.regions, n, i, j);
    var at := i * n + j;
    assert SubspaceIds(key)[1 + |key.regions| + at] == ReplicaIds(key.regions)[at];
    assert ids[2 + |key.regions| + at] == SubspaceIds(key)[1 + |key.regions| + at];
  }

  // ------------------------------------------------------------ a client's routing

  function Servers(replicas: seq<Pair>): (servers: seq<NodeId>)
    ensures |servers| == |replicas| && forall j :: 0 <= j < |replicas| ==> servers[j] == replicas[j].first
  {
    seq(|replicas|, j requires 0 <= j < |replicas| => replicas[j].first)
  }

  /** Region `i` of the key subspace, as a client reads it from an encoded space. */
  function EncodedRegion(bytes: Bytes, i: nat): Option<Region> {
    var w :- ReadWireSpace(bytes);
    if w.subspaces == [] || i >= |w.subspaces[0].regions| || w.subspaces[0].regions[i].bounds == [] then None
    else
      var r := w.subspaces[0].regions[i];
      Some(Region(r.bounds[0].first, r.bounds[0].second, Servers(r.replicas)))
  }

  /** It is the published region, whatever the roots and ids. */
  lemma EncodedRegionIsPublished(space: Space, layout: seq<NodeId>, roots: Roots, next: nat, i: nat)
    requires i < space.options.partitions && EncodeSpace(space, layout, roots, next).Some?
    ensures EncodedRegion(EncodeSpace(space, layout, roots, next).value.bytes, i)
         == Some(KeySubspaceRegions(layout, space.options)[i])
  {
    WholeSpaceBack(space, layout, roots, next);
    hide EncodeSpace, ReadWireSpace, LowerPoint, UpperPoint, ReplicaSets, SpaceHolds;
    var w := ReadWireSpace(EncodeSpace(space, layout, roots, next).value.bytes).value;
    KeyRegionHolds(w, space, layout, roots, i);
    assert Servers(w.subspaces[0].regions[i].replicas) == KeyServers(space, layout, i);
  }

  /** A client that finds the hash in region `i` of the encoded space is sent to
      the replicas the daemons use. */
  predicate ClientRoutedAlike(bytes: Bytes, i: nat, layout: seq<NodeId>, options: SpaceOptions, hash: u64) {
    EncodedRegion(bytes, i).Some? && RoutedAlike(EncodedRegion(bytes, i).value, layout, options, hash)
  }

  /** The bytes encoded for any space and cluster route every key as the daemons
      do. */
  ghost predicate EncodedRoutingAgrees(roots: Roots, partitions: u32) {
    forall space: Space, layout: seq<NodeId>, next: nat, hash: u64, i: nat |
      && layout != [] && Distinct(layout) && space.options.partitions == partitions && i < partitions
      && EncodeSpace(space, layout, roots, next).Some? ::
      ClientRoutedAlike(EncodeSpace(space, layout, roots, next).value.bytes, i, layout, space.options, hash)
  }

  /** A schema of a key alone. */
  function KeyOnly(partitions: u32): Space { Space("s", "k", [], [], SpaceOptions(0, partitions, HyperDexDsl)) }

  lemma {:induction false} SmallSetsEncode(boxes: seq<Box>, i: nat, width: nat, firstId: nat, next: nat, sets: seq<seq<NodeId>>)
    requires AllOnWire(boxes, width) && i <= |boxes| && forall s :: s in sets ==> |s| < 0x100
    ensures EncodeRegions(boxes, i, width, firstId, next, sets).Some?
    decreases |boxes| - i
  {
    hide OnWire, EncodeRegion;
    if i < |boxes| {
      if sets != [] { ChosenSetInRange(i, |sets|, |boxes|); }
      assert |SetFor(sets, i, |boxes|)| < 0x100;
      SmallSetsEncode(boxes, i + 1, width, firstId, next + |SetFor(sets, i, |boxes|)|, sets);
    }
  }

  lemma KeyOnlyEncodes(partitions: u32, layout: seq<NodeId>, roots: Roots, next: nat)
    requires partitions > 0 && layout != [] && Distinct(layout)
    ensures EncodeSpace(KeyOnly(partitions), layout, roots, next).Some?
  {
    hide ReplicaSets, RegionBoxes, EncodeRegions, SpaceBytes, SubspaceBytes, AllOnWire;
    var space := KeyOnly(partitions);
    var sets := SetsOf(space, layout);
    KeyBoxes(roots, partitions, 0);
    ReplicaSetsWellFormed(layout, ReplicaCount(|layout|, 0), partitions);
    var boxes := RegionBoxes(roots, 1, partitions).value;
    SmallSetsEncode(boxes, 0, 1, next + 2, next + 2 + |boxes|, sets);
    ShortNamesOfKeyOnly(partitions);
  }

  lemma ShortNamesOfKeyOnly(partitions: u32)
    ensures var table := AttributeTable(KeyOnly(partitions));
      table.Some? && |table.value| == 1 && ShortNames(KeyOnly(partitions), table.value)
  {
    assert ShortText("s") && ShortText("k");
  }

  /** ... exactly if the partition count is a power of two. */
  lemma EncodedRoutingAgreesExactly(roots: Roots, partitions: u32)
    requires partitions > 0
    ensures EncodedRoutingAgrees(roots, partitions) <==> PowerOfTwo(partitions)
  {
    hide EncodedRegion, EncodeSpace, KeySubspaceRegions, RoutedAlike, PowerOfTwo, IntervalOf, RegionForHash, FirstServers;
    if PowerOfTwo(partitions) {
      forall space: Space, layout: seq<NodeId>, next: nat, hash: u64, i: nat |
        && layout != [] && Distinct(layout) && space.options.partitions == partitions && i < partitions
        && EncodeSpace(space, layout, roots, next).Some?
        ensures ClientRoutedAlike(EncodeSpace(space, layout, roots, next).value.bytes, i, layout, space.options, hash)
      {
        EncodedRegionIsPublished(space, layout, roots, next, i);
        PublishedRoutingAgrees(layout, space.options, hash, i);
      }
    } else {
      DividesIffPowerOfTwo(partitions);
      PublishedIndexExact(partitions);
      var hash: u64 :| IntervalOf(partitions, hash) != RegionForHash(hash, partitions);
      KeyOnlyApart(roots, 0, partitions, hash);
      FirstServersDistinct(partitions);
    }
  }

  lemma FirstServersDistinct(count: u32)
    requires count > 0
    ensures FirstServers(count) != [] && Distinct(FirstServers(count))
  {
  }

  /** On as many servers as partitions, a hash of two different regions is sent
      to two different servers. */
  lemma KeyOnlyApart(roots: Roots, next: nat, partitions: u32, hash: u64)
    requires partitions > 0 && IntervalOf(partitions, hash) != RegionForHash(hash, partitions)
    ensures EncodeSpace(KeyOnly(partitions), FirstServers(partitions), roots, next).Some?
    ensures var bytes := EncodeSpace(KeyOnly(partitions), FirstServers(partitions), roots, next).value.bytes;
      !ClientRoutedAlike(bytes, IntervalOf(partitions, hash), FirstServers(partitions), KeyOnly(partitions).options, hash)
  {
    hide EncodedRegion, EncodeSpace, KeySubspaceRegions, RoutedAlike, IntervalOf, RegionForHash, FirstServers;
    FirstServersDistinct(partitions);
    KeyOnlyEncodes(partitions, FirstServers(partitions), roots, next);
    EncodedRegionIsPublished(KeyOnly(partitions), FirstServers(partitions), roots, next, IntervalOf(partitions, hash));
    OneServerPerPartition(partitions, hash);
  }
}
