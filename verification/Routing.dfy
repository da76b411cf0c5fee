/** How a daemon places a key: hash to region, region to replica set
    (crates/server, `legacy_locate_string_key` and its helpers). */
module Routing {
  import opened Arithmetic
  import opened Base
  import opened DataModel

  datatype PlacementDecision = PlacementDecision(
    partition: nat,
    partitions: nat,
    primary: NodeId,
    replicas: seq<NodeId>)

  function RegionForHash(hash: u64, partitions: u32): nat {
    hash * Max(partitions, 1) / TWO_64
  }

  lemma RegionInRange(hash: u64, partitions: u32)
    ensures 0 <= RegionForHash(hash, partitions) < Max(partitions, 1)
  {
    var p := Max(partitions, 1);
    assert hash * p < TWO_64 * p by { MulStrictMono(hash, TWO_64, p); }
    DivBelow(hash * p, TWO_64, p);
  }

  // ------------------------------------------------------------ replica sets

  /** All servers, starting from position `start` and wrapping around. */
  function Rotation(ids: seq<NodeId>, start: nat): seq<NodeId>
    requires ids != []
  {
    seq(|ids|, i => ids[(start + i) % |ids|])
  }

  /** `replicas` servers at positions start, start + stride, ... */
  function Strided(ids: seq<NodeId>, start: nat, stride: nat, replicas: nat): seq<NodeId>
    requires replicas > 0 && start + stride * (replicas - 1) < |ids|
  {
    seq(replicas, i requires 0 <= i < replicas =>
      MulMono(i, replicas - 1, stride);
      ids[start + stride * i])
  }

  function Rotations(ids: seq<NodeId>, start: nat): seq<seq<NodeId>>
    requires ids != [] && start <= |ids|
    decreases |ids| - start
  {
    if start == |ids| then [] else [Rotation(ids, start)] + Rotations(ids, start + 1)
  }

  /** The sets with this `start`, strides `stride` and up: `partitions` of them
      at most, none past the end of the server list. */
  function SetsFrom(ids: seq<NodeId>, replicas: nat, partitions: nat, start: nat, stride: nat): seq<seq<NodeId>>
    requires replicas > 0
    decreases partitions + 1 - stride
  {
    if stride > partitions || start + stride * (replicas - 1) >= |ids| then []
    else [Strided(ids, start, stride, replicas)] + SetsFrom(ids, replicas, partitions, start, stride + 1)
  }

  function SetsStarting(ids: seq<NodeId>, replicas: nat, partitions: nat, start: nat): seq<seq<NodeId>>
    requires replicas > 0 && start <= |ids|
    decreases |ids| - start
  {
    if start == |ids| then []
    else SetsFrom(ids, replicas, partitions, start, 1) + SetsStarting(ids, replicas, partitions, start + 1)
  }

  function ReplicaSets(ids: seq<NodeId>, replicas: nat, partitions: u32): seq<seq<NodeId>> {
    if ids == [] || replicas == 0 then []
    else if |ids| <= replicas then Rotations(ids, 0)
    else SetsStarting(ids, replicas, Max(partitions, 1), 0)
  }

  /** The source's nested loops compute `ReplicaSets`; each loop level is a
      method of its own here. */
  method LegacyReplicaSets(ids: seq<NodeId>, replicas: nat, partitions: u32) returns (sets: seq<seq<NodeId>>)
    ensures sets == ReplicaSets(ids, replicas, partitions)
  {
    sets := [];
    if ids == [] || replicas == 0 {
      return;
    }
    if |ids| <= replicas {
      sets := CollectRotations(ids);
      return;
    }
    var bound := Max(partitions, 1);
    for start := 0 to |ids|
      invariant sets + SetsStarting(ids, replicas, bound, start) == SetsStarting(ids, replicas, bound, 0)
    {
      var more := CollectStrides(ids, replicas, bound, start);
      assert sets + (more + SetsStarting(ids, replicas, bound, start + 1))
          == (sets + more) + SetsStarting(ids, replicas, bound, start + 1);
      sets := sets + more;
    }
  }

  method CollectRotations(ids: seq<NodeId>) returns (sets: seq<seq<NodeId>>)
    requires ids != []
    ensures sets == Rotations(ids, 0)
  {
    sets := [];
    for start := 0 to |ids|
      invariant sets + Rotations(ids, start) == Rotations(ids, 0)
    {
      var replicaSet := [];
      for offset := 0 to |ids|
        invariant replicaSet == Rotation(ids, start)[..offset]
      {
        replicaSet := replicaSet + [ids[(start + offset) % |ids|]];
      }
      assert replicaSet == Rotation(ids, start);
      assert sets + ([replicaSet] + Rotations(ids, start + 1)) == (sets + [replicaSet]) + Rotations(ids, start + 1);
      sets := sets + [replicaSet];
    }
  }

  method CollectStrides(ids: seq<NodeId>, replicas: nat, bound: nat, start: nat) returns (sets: seq<seq<NodeId>>)
    requires replicas > 0
    ensures sets == SetsFrom(ids, replicas, bound, start, 1)
  {
    sets := [];
    var stride := 1;
    while stride <= bound
      invariant 1 <= stride
      invariant sets + SetsFrom(ids, replicas, bound, start, stride) == SetsFrom(ids, replicas, bound, start, 1)
    {
      if start + stride * (replicas - 1) >= |ids| {
        break;
      }
      var replicaSet := [];
      for replica := 0 to replicas
        invariant replicaSet == Strided(ids, start, stride, replicas)[..replica]
      {
        MulMono(replica, replicas - 1, stride);
        replicaSet := replicaSet + [ids[start + stride * replica]];
      }
      assert replicaSet == Strided(ids, start, stride, replicas);
      assert sets + ([replicaSet] + SetsFrom(ids, replicas, bound, start, stride + 1))
          == (sets + [replicaSet]) + SetsFrom(ids, replicas, bound, start, stride + 1);
      sets := sets + [replicaSet];
      stride := stride + 1;
    }
  }

  /** What a replica set must be: `size` different registered servers. */
  ghost predicate GoodSet(set_: seq<NodeId>, ids: seq<NodeId>, size: nat) {
    |set_| == size && Distinct(set_) && forall n :: n in set_ ==> n in ids
  }

  lemma RotationGood(ids: seq<NodeId>, start: nat)
    requires ids != [] && Distinct(ids) && start <= |ids|
    ensures GoodSet(Rotation(ids, start), ids, |ids|)
  {
    var r := Rotation(ids, start);
    forall i, j | 0 <= i < j < |r| ensures r[i] != r[j] {
      WrapDistinct(start, i, j, |ids|);
    }
  }

  lemma StridedGood(ids: seq<NodeId>, start: nat, stride: nat, replicas: nat)
    requires Distinct(ids) && stride > 0 && replicas > 0 && start + stride * (replicas - 1) < |ids|
    ensures GoodSet(Strided(ids, start, stride, replicas), ids, replicas)
  {
    var s := Strided(ids, start, stride, replicas);
    forall i | 0 <= i < replicas ensures start + stride * i < |ids| && s[i] == ids[start + stride * i] {
      MulMono(i, replicas - 1, stride);
    }
    forall i, j | 0 <= i < j < replicas ensures s[i] != s[j] {
      MulStrictMono(i, j, stride);
    }
  }

  lemma {:induction false} RotationsGood(ids: seq<NodeId>, start: nat)
    requires ids != [] && Distinct(ids) && start <= |ids|
    ensures |Rotations(ids, start)| == |ids| - start
    ensures forall s :: s in Rotations(ids, start) ==> GoodSet(s, ids, |ids|)
    decreases |ids| - start
  {
    if start < |ids| {
      RotationGood(ids, start);
      RotationsGood(ids, start + 1);
    }
  }

  lemma {:induction false} SetsFromGood(ids: seq<NodeId>, replicas: nat, partitions: nat, start: nat, stride: nat)
    requires Distinct(ids) && replicas > 0 && stride > 0
    ensures forall s :: s in SetsFrom(ids, replicas, partitions, start, stride) ==> GoodSet(s, ids, replicas)
    decreases partitions + 1 - stride
  {
    if stride <= partitions && start + stride * (replicas - 1) < |ids| {
      StridedGood(ids, start, stride, replicas);
      SetsFromGood(ids, replicas, partitions, start, stride + 1);
    }
  }

  lemma {:induction false} SetsStartingGood(ids: seq<NodeId>, replicas: nat, partitions: nat, start: nat)
    requires Distinct(ids) && replicas > 0 && start <= |ids|
    ensures forall s :: s in SetsStarting(ids, replicas, partitions, start) ==> GoodSet(s, ids, replicas)
    decreases |ids| - start
  {
    if start < |ids| {
      SetsFromGood(ids, replicas, partitions, start, 1);
      SetsStartingGood(ids, replicas, partitions, start + 1);
    }
  }

  /** Servers are never repeated, never invented and never missing from a
      replica set, and there is always a set to choose. */
  lemma ReplicaSetsWellFormed(ids: seq<NodeId>, replicas: nat, partitions: u32)
    requires ids != [] && Distinct(ids) && replicas > 0
    ensures ReplicaSets(ids, replicas, partitions) != []
    ensures forall s :: s in ReplicaSets(ids, replicas, partitions) ==> GoodSet(s, ids, Min(|ids|, replicas))
  {
    if |ids| <= replicas {
      RotationsGood(ids, 0);
    } else {
      SetsStartingGood(ids, replicas, Max(partitions, 1), 0);
      assert SetsFrom(ids, replicas, Max(partitions, 1), 0, 1) != [];
    }
  }

  /** How many strides fit from a starting position. */
  function Strides(servers: nat, replicas: nat, partitions: nat, start: nat): nat
    requires replicas > 0 && start < servers
  {
    if replicas == 1 then partitions else Min(partitions, (servers - 1 - start) / (replicas - 1))
  }

  /** How many sets there are for the positions from `first` up to `start`. */
  function SetsBefore(servers: nat, replicas: nat, partitions: nat, first: nat, start: nat): nat
    requires replicas > 0 && first <= start <= servers
    decreases start - first
  {
    if first == start then 0
    else Strides(servers, replicas, partitions, first) + SetsBefore(servers, replicas, partitions, first + 1, start)
  }

  /** Servers at equal distances. */
  ghost predicate Spaced(s: seq<NodeId>, ids: seq<NodeId>, start: nat, stride: nat, replicas: nat) {
    |s| == replicas && forall i :: 0 <= i < replicas ==> ServerAt(s, ids, i, start + stride * i)
  }

  predicate ServerAt(s: seq<NodeId>, ids: seq<NodeId>, i: nat, at: nat) { i < |s| && at < |ids| && s[i] == ids[at] }

  lemma StrideFits(servers: nat, replicas: nat, partitions: nat, start: nat, stride: nat)
    requires replicas > 0 && start < servers && stride > 0
    ensures stride <= Strides(servers, replicas, partitions, start)
        <==> stride <= partitions && start + stride * (replicas - 1) < servers
  {
    if replicas > 1 { QuotientExact(servers - 1 - start, replicas - 1, stride); }
  }

  lemma StridedIsSpaced(ids: seq<NodeId>, start: nat, stride: nat, replicas: nat)
    requires replicas > 0 && start + stride * (replicas - 1) < |ids|
    ensures Spaced(Strided(ids, start, stride, replicas), ids, start, stride, replicas)
  {
    forall i | 0 <= i < replicas ensures ServerAt(Strided(ids, start, stride, replicas), ids, i, start + stride * i) {
      MulMono(i, replicas - 1, stride);
    }
  }

  lemma {:induction false} SetsFromAre(ids: seq<NodeId>, replicas: nat, partitions: nat, start: nat, stride: nat)
    requires replicas > 0 && start < |ids| && stride > 0
    ensures var sets, n := SetsFrom(ids, replicas, partitions, start, stride), Strides(|ids|, replicas, partitions, start);
      && |sets| == (if stride <= n then n + 1 - stride else 0)
      && forall k :: 0 <= k < |sets| ==> Spaced(sets[k], ids, start, stride + k, replicas)
    decreases partitions + 1 - stride
  {
    hide Spaced, Strides;
    StrideFits(|ids|, replicas, partitions, start, stride);
    if stride <= partitions && start + stride * (replicas - 1) < |ids| {
      StridedIsSpaced(ids, start, stride, replicas);
      SetsFromAre(ids, replicas, partitions, start, stride + 1);
      var sets, rest := SetsFrom(ids, replicas, partitions, start, stride), SetsFrom(ids, replicas, partitions, start, stride + 1);
      forall k | 0 <= k < |sets| ensures Spaced(sets[k], ids, start, stride + k, replicas) {
        if k > 0 { assert sets[k] == rest[k - 1]; }
      }
    }
  }

  lemma {:induction false} SetsStartingAre(ids: seq<NodeId>, replicas: nat, partitions: nat, first: nat, start: nat, stride: nat)
    requires replicas > 0 && first <= start < |ids| && 0 < stride <= Strides(|ids|, replicas, partitions, start)
    ensures var sets := SetsStarting(ids, replicas, partitions, first);
      var k := SetsBefore(|ids|, replicas, partitions, first, start) + stride - 1;
      k < |sets| && Spaced(sets[k], ids, start, stride, replicas)
    decreases start - first
  {
    hide Spaced, Strides, SetsFrom;
    SetsFromAre(ids, replicas, partitions, first, 1);
    var here, rest := SetsFrom(ids, replicas, partitions, first, 1), SetsStarting(ids, replicas, partitions, first + 1);
    if first == start { assert (here + rest)[stride - 1] == here[stride - 1]; }
    if first < start { SetsStartingAre(ids, replicas, partitions, first + 1, start, stride); }
  }

  lemma {:induction false} SetsStartingCount(ids: seq<NodeId>, replicas: nat, partitions: nat, first: nat)
    requires replicas > 0 && first <= |ids|
    ensures |SetsStarting(ids, replicas, partitions, first)| == SetsBefore(|ids|, replicas, partitions, first, |ids|)
    decreases |ids| - first
  {
    hide Strides, SetsFrom;
    if first < |ids| {
      SetsFromAre(ids, replicas, partitions, first, 1);
      SetsStartingCount(ids, replicas, partitions, first + 1);
    }
  }

  /** With more servers than replicas the sets are listed by starting position and
      then by stride, each of servers at equal distances, and there are no others. */
  lemma StridedSetsInOrder(ids: seq<NodeId>, replicas: nat, partitions: u32, start: nat, stride: nat)
    requires 0 < replicas < |ids| && start < |ids| && 0 < stride <= Strides(|ids|, replicas, Max(partitions, 1), start)
    ensures var sets, bound := ReplicaSets(ids, replicas, partitions), Max(partitions, 1);
      var k := SetsBefore(|ids|, replicas, bound, 0, start) + stride - 1;
      && |sets| == SetsBefore(|ids|, replicas, bound, 0, |ids|)
      && k < |sets| && Spaced(sets[k], ids, start, stride, replicas)
  {
    hide Spaced, Strides, SetsStarting, SetsBefore;
    SetsStartingAre(ids, replicas, Max(partitions, 1), 0, start, stride);
    SetsStartingCount(ids, replicas, Max(partitions, 1), 0);
  }

  /** With no more servers than replicas every server heads one set of all of
      them, in the order of the list. */
  lemma RotatedSetsInOrder(ids: seq<NodeId>, replicas: nat, partitions: u32, k: nat, i: nat)
    requires ids != [] && |ids| <= replicas && k < |ids| && i < |ids|
    ensures var sets := ReplicaSets(ids, replicas, partitions);
      |sets| == |ids| && |sets[k]| == |ids| && sets[k][i] == ids[if k + i < |ids| then k + i else k + i - |ids|]
  {
    RotationsAre(ids, 0, k);
    WrapOnce(k + i, |ids|);
  }

  lemma {:induction false} RotationsAre(ids: seq<NodeId>, start: nat, k: nat)
    requires ids != [] && start <= k < |ids|
    ensures |Rotations(ids, start)| == |ids| - start && Rotations(ids, start)[k - start] == Rotation(ids, k)
    decreases |ids| - start
  {
    if start < k {
      RotationsAre(ids, start + 1, k);
    } else if start + 1 < |ids| {
      RotationsAre(ids, start + 1, start + 1);
    }
  }

  // ------------------------------------------------------------------ locate

  function ReplicaCount(servers: nat, faultTolerance: u32): nat {
    Max(Min(servers, Min(faultTolerance + 1, 0xFFFF_FFFF)), 1)
  }

  lemma ChosenSetInRange(region: nat, sets: nat, partitions: nat)
    requires region < partitions && sets > 0
    ensures 0 <= region * sets / partitions < sets
  {
    MulStrictMono(region, partitions, sets);
    DivBelow(region * sets, partitions, sets);
  }

  function Locate(layout: seq<NodeId>, options: SpaceOptions, hash: u64): Result<PlacementDecision> {
    if layout == [] then Err(Other)
    else
      var sets := ReplicaSets(layout, ReplicaCount(|layout|, options.faultTolerance), options.partitions);
      if sets == [] then Err(Other)
      else if options.partitions == 0 then Err(Panicked)
      else
        var partition := RegionForHash(hash, options.partitions);
        RegionInRange(hash, options.partitions);
        ChosenSetInRange(partition, |sets|, options.partitions);
        var replicas := sets[partition * |sets| / options.partitions];
        if replicas == [] then Err(Panicked)
        else Ok(PlacementDecision(partition, options.partitions, replicas[0], replicas))
  }

  /** A key is placed exactly when there is a server and a partition, and then
      on min(servers, tolerance + 1) different registered servers, the first of
      them primary. */
  lemma LocateWellFormed(layout: seq<NodeId>, options: SpaceOptions, hash: u64)
    requires Distinct(layout)
    ensures Locate(layout, options, hash).Ok? <==> layout != [] && options.partitions > 0
    ensures var r := Locate(layout, options, hash); r.Ok? ==>
      && GoodSet(r.value.replicas, layout, Min(|layout|, Min(options.faultTolerance + 1, 0xFFFF_FFFF)))
      && r.value.replicas != [] && r.value.primary == r.value.replicas[0]
      && r.value.partition < r.value.partitions == options.partitions
  {
    if layout != [] {
      var count := ReplicaCount(|layout|, options.faultTolerance);
      ReplicaSetsWellFormed(layout, count, options.partitions);
      if options.partitions > 0 {
        var sets := ReplicaSets(layout, count, options.partitions);
        var partition := RegionForHash(hash, options.partitions);
        RegionInRange(hash, options.partitions);
        ChosenSetInRange(partition, |sets|, options.partitions);
        assert sets[partition * |sets| / options.partitions] in sets;
      }
    }
  }
}
