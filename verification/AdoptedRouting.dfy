/** From the coordinator's configuration to a client's route: the servers that
    are encoded for clients and the nodes a daemon has adopted (crates/server,
    `default_legacy_config_encoder`, `apply_config_view`). */
module AdoptedRouting {
  import opened Base
  import opened ConfigSync
  import opened DataModel
  import opened KeySubspace
  import opened Numbering
  import opened PackedSpace
  import opened PublishedRouting
  import opened Regions
  import opened Routing
  import opened Sorting

  function IdsOf(nodes: seq<ClusterNode>): (ids: seq<NodeId>)
    ensures |ids| == |nodes| && forall i :: 0 <= i < |nodes| ==> ids[i] == nodes[i].id
  {
    seq(|nodes|, i requires 0 <= i < |nodes| => nodes[i].id)
  }

  /** The server list of an encoded configuration: the view's nodes by id. */
  function EncodedServers(view: View): seq<NodeId> { IdsOf(SortNodes(view.cluster.nodes)) }

  predicate Rising(nodes: seq<ClusterNode>) { forall i, j :: 0 <= i < j < |nodes| ==> nodes[i].id <= nodes[j].id }

  lemma {:induction false} InsertRises(node: ClusterNode, s: seq<ClusterNode>)
    requires Rising(s)
    ensures Rising(InsertNode(node, s)) && forall n :: n in InsertNode(node, s) <==> n == node || n in s
  {
    if s != [] && node.id > s[0].id {
      var rest := InsertNode(node, s[1..]);
      InsertRises(node, s[1..]);
      assert s == [s[0]] + s[1..];
      forall i | 0 <= i < |rest| ensures s[0].id <= rest[i].id {
        assert rest[i] in rest;
        if rest[i] != node {
          var j :| 0 <= j < |s[1..]| && s[1..][j] == rest[i];
          assert rest[i] == s[j + 1];
        }
      }
    }
  }

  lemma {:induction false} SortRises(nodes: seq<ClusterNode>)
    ensures Rising(SortNodes(nodes))
  {
    if nodes != [] {
      SortRises(nodes[1..]);
      InsertRises(nodes[0], SortNodes(nodes[1..]));
    }
  }

  /** A registration that changes the node list leaves it in the order of ids. */
  lemma UpsertRises(nodes: seq<ClusterNode>, node: ClusterNode)
    ensures Upsert(nodes, node) == nodes || Rising(Upsert(nodes, node))
    ensures node in Upsert(nodes, node)
  {
    hide Rising;
    SortRises(nodes + [node]);
    SortHolds(nodes + [node], node);
    match FindNode(nodes, node.id)
    case None =>
    case Some(i) =>
      SortRises(nodes[i := node]);
      assert nodes[i := node][i] == node;
      SortHolds(nodes[i := node], node);
  }

  lemma {:induction false} SortHolds(nodes: seq<ClusterNode>, node: ClusterNode)
    requires node in nodes
    ensures node in SortNodes(nodes)
  {
    SortRises(nodes[1..]);
    InsertRises(nodes[0], SortNodes(nodes[1..]));
    if node != nodes[0] { SortHolds(nodes[1..], node); }
  }

  lemma NumbersTotallyOrdered()
    ensures StrictTotal(Below)
  {
  }

  /** The encoder's server list is the daemons' layout. */
  lemma EncodedServersAreTheLayout(nodes: seq<ClusterNode>, daemons: Daemons)
    requires UniqueIds(nodes) && Holds(daemons, nodes)
    ensures IdsOf(SortNodes(nodes)) == Ascending(daemons.Keys)
  {
    hide Ascending, SortNodes;
    var sorted := SortNodes(nodes);
    SortNodesKeeps(nodes);
    SortRises(nodes);
    AscendingFacts(daemons.Keys);
    NumbersTotallyOrdered();
    assert forall i, j :: 0 <= i < j < |sorted| ==> sorted[i].id != sorted[j].id && sorted[i].id <= sorted[j].id;
    forall id ensures id in IdsOf(sorted) <==> id in Ascending(daemons.Keys) {
      if id in IdsOf(sorted) {
        var i :| 0 <= i < |sorted| && IdsOf(sorted)[i] == id;
        assert sorted[i] in sorted && sorted[i] in nodes;
      }
      if id in daemons {
        assert daemons[id] in nodes && daemons[id] in sorted;
        var i :| 0 <= i < |sorted| && sorted[i] == daemons[id];
        assert IdsOf(sorted)[i] == id;
      }
    }
    SortedUnique(IdsOf(sorted), Ascending(daemons.Keys), Below);
  }

  function ViewOf(coordinator: State, spaces: seq<Space>): View {
    View(coordinator.version, coordinator.stableThrough, coordinator.cluster, spaces)
  }

  /** A client that finds the hash in a region of the key subspace, read from the
      bytes its coordinator encoded for the space, is sent to the replicas to
      which a daemon that adopted the same view sends it. */
  ghost predicate LedAlike(roots: Roots, coordinator: State, daemon: State, spaces: seq<Space>, name: SpaceName, next: nat,
                           hash: u64, i: nat)
    requires name in coordinator.catalog
  {
    var view := ViewOf(coordinator, spaces);
    var encoded := EncodeSpace(coordinator.catalog[name], EncodedServers(view), roots, next);
    var located := LocateIn(Adopted(daemon, view), name, hash);
    encoded.Some? ==>
      var region := EncodedRegion(encoded.value.bytes, i);
      && region.Some?
      && (region.value.lower <= hash <= region.value.upper ==> located.Ok? && region.value.replicas == located.value.replicas)
  }

  /** Whatever consistent coordinator, whatever daemon that adopts its view, and
      whatever key of a space with so many partitions. */
  ghost predicate AdoptedRoutingAgrees(roots: Roots, partitions: u32) {
    forall coordinator: State, daemon: State, spaces: seq<Space>, name: SpaceName, next: nat, hash: u64, i: nat |
      && Consistent(coordinator) && Shows(spaces, coordinator.catalog) && coordinator.cluster.nodes != []
      && name in coordinator.catalog && coordinator.catalog[name].options.partitions == partitions && i < partitions ::
      LedAlike(roots, coordinator, daemon, spaces, name, next, hash, i)
  }

  lemma LedByLayout(roots: Roots, coordinator: State, daemon: State, spaces: seq<Space>, name: SpaceName, next: nat, hash: u64, i: nat)
    requires Consistent(coordinator) && Shows(spaces, coordinator.catalog) && name in coordinator.catalog
    ensures var layout, space := Ascending(coordinator.daemons.Keys), coordinator.catalog[name];
      var encoded := EncodeSpace(space, layout, roots, next);
      LedAlike(roots, coordinator, daemon, spaces, name, next, hash, i)
      <==> (encoded.Some? ==> ClientRoutedAlike(encoded.value.bytes, i, layout, space.options, hash))
  {
    hide Ascending, SortNodes, Adopted, EncodedRegion, EncodeSpace, Locate, Holds, UniqueIds, Shows;
    AdoptionConverges(coordinator, daemon, spaces);
    EncodedServersAreTheLayout(coordinator.cluster.nodes, coordinator.daemons);
  }

  lemma LayoutIsThere(coordinator: State)
    requires Consistent(coordinator) && coordinator.cluster.nodes != []
    ensures Ascending(coordinator.daemons.Keys) != [] && Distinct(Ascending(coordinator.daemons.Keys))
  {
    hide Ascending;
    AscendingFacts(coordinator.daemons.Keys);
    var node := coordinator.cluster.nodes[0];
    assert node in coordinator.cluster.nodes && node.id in coordinator.daemons && node.id in Ascending(coordinator.daemons.Keys);
  }

  /** Clients and daemons are led alike exactly if the partition count is a power
      of two. */
  lemma AdoptedRoutingAgreesExactly(roots: Roots, partitions: u32)
    requires partitions > 0
    ensures AdoptedRoutingAgrees(roots, partitions) <==> PowerOfTwo(partitions)
  {
    hide LedAlike, ClientRoutedAlike, EncodeSpace, Consistent, Shows, PowerOfTwo, Ascending, IntervalOf, RegionForHash;
    EncodedRoutingAgreesExactly(roots, partitions);
    if PowerOfTwo(partitions) {
      forall coordinator: State, daemon: State, spaces: seq<Space>, name: SpaceName, next: nat, hash: u64, i: nat |
        && Consistent(coordinator) && Shows(spaces, coordinator.catalog) && coordinator.cluster.nodes != []
        && name in coordinator.catalog && coordinator.catalog[name].options.partitions == partitions && i < partitions
        ensures LedAlike(roots, coordinator, daemon, spaces, name, next, hash, i)
      {
        LayoutIsThere(coordinator);
        LedByLayout(roots, coordinator, daemon, spaces, name, next, hash, i);
      }
    } else {
      DividesIffPowerOfTwo(partitions);
      PublishedIndexExact(partitions);
      var hash: u64 :| IntervalOf(partitions, hash) != RegionForHash(hash, partitions);
      LedApart(roots, partitions, hash);
    }
  }

  /** A coordinator of as many nodes as the one space it has partitions. */
  function OneNodeEach(partitions: u32): State {
    var nodes := seq(partitions, i requires 0 <= i < partitions => ClusterNode(i, "", 0, 0));
    State(map["s" := KeyOnly(partitions)], NodeMap(nodes), ClusterConfig(nodes, 1), map["s" := map[]], 0, 0)
  }

  lemma OneNodeEachConsistent(partitions: u32)
    requires partitions > 0
    ensures var c := OneNodeEach(partitions);
      Consistent(c) && Shows([c.catalog["s"]], c.catalog) && c.cluster.nodes != []
  {
    hide NodeMap;
    NodeMapHolds(OneNodeEach(partitions).cluster.nodes);
  }

  lemma OneNodeEachLayout(partitions: u32)
    requires partitions > 0
    ensures Ascending(OneNodeEach(partitions).daemons.Keys) == FirstServers(partitions)
  {
    hide Ascending, NodeMap;
    var c := OneNodeEach(partitions);
    NodeMapHolds(c.cluster.nodes);
    AscendingFacts(c.daemons.Keys);
    NumbersTotallyOrdered();
    forall id ensures id in FirstServers(partitions) <==> id in Ascending(c.daemons.Keys) {
      if 0 <= id < partitions { assert c.cluster.nodes[id] in c.cluster.nodes && FirstServers(partitions)[id] == id; }
      if id in c.daemons { assert c.daemons[id] in c.cluster.nodes; }
    }
    SortedUnique(FirstServers(partitions), Ascending(c.daemons.Keys), Below);
  }

  lemma LedApart(roots: Roots, partitions: u32, hash: u64)
    requires partitions > 0 && IntervalOf(partitions, hash) != RegionForHash(hash, partitions)
    ensures !AdoptedRoutingAgrees(roots, partitions)
  {
    hide ClientRoutedAlike, EncodeSpace, Consistent, Shows, Ascending, IntervalOf, RegionForHash, FirstServers;
    var c, i := OneNodeEach(partitions), IntervalOf(partitions, hash);
    OneNodeEachConsistent(partitions);
    OneNodeEachLayout(partitions);
    KeyOnlyApart(roots, 0, partitions, hash);
    LedByLayout(roots, c, c, [c.catalog["s"]], "s", 0, hash, i);
    assert !LedAlike(roots, c, c, [c.catalog["s"]], "s", 0, hash, i);
  }
}
