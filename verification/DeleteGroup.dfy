/** Deleting all records that match some checks, on every node that has the
    space or on none (crates/server, `execute_distributed_delete_group`). */
module DeleteGroup {
  import opened Arithmetic
  import opened Base
  import opened DataModel
  import opened Engine
  import opened KeyOrder
  import opened Node
  import opened RecordEquality
  import opened Cluster

  datatype Snapshot = Snapshot(node: NodeId, records: map<Bytes, Record>)

  function Ids(snapshots: seq<Snapshot>): seq<NodeId> {
    seq(|snapshots|, i requires 0 <= i < |snapshots| => snapshots[i].node)
  }

  function Erase(node: Node, space: SpaceName, checks: seq<Check>): Node {
    if space in node.storage then WithTable(node, space, RemoveMatching(node.storage[space], checks)) else node
  }

  /** Every node of `targets` without its matching records, the rest as it was. */
  function Erased(nodes: Nodes, targets: seq<NodeId>, space: SpaceName, checks: seq<Check>): Nodes {
    map n | n in nodes :: if n in targets then Erase(nodes[n], space, checks) else nodes[n]
  }

  ghost predicate GoodSnapshots(nodes: Nodes, snapshots: seq<Snapshot>, space: SpaceName, checks: seq<Check>) {
    forall s :: s in snapshots ==>
      && s.node in nodes && Searchable(nodes[s.node], space)
      && s.records == MatchingRecords(nodes[s.node], space, checks)
  }

  /** The members that have the space, in their order. */
  function Holders(nodes: Nodes, members: seq<NodeId>, space: SpaceName): seq<NodeId> {
    if members == [] then []
    else
      var n, before := members[|members| - 1], Holders(nodes, members[..|members| - 1], space);
      if n in nodes && Searchable(nodes[n], space) then before + [n] else before
  }

  /** One good snapshot for each of the members asked so far, except those that
      lack the space. */
  ghost predicate SnapshotsOf(nodes: Nodes, asked: seq<NodeId>, snapshots: seq<Snapshot>, space: SpaceName, checks: seq<Check>) {
    && GoodSnapshots(nodes, snapshots, space, checks)
    && Distinct(Ids(snapshots))
    && Ids(snapshots) == Holders(nodes, asked, space)
    && (forall n :: n in Ids(snapshots) ==> n in asked)
    && (forall n :: n in asked ==> n in Ids(snapshots) || (n in nodes && !Searchable(nodes[n], space)))
  }

  lemma OneMoreSnapshot(nodes: Nodes, asked: seq<NodeId>, snapshots: seq<Snapshot>, space: SpaceName, checks: seq<Check>, s: Snapshot)
    requires SnapshotsOf(nodes, asked, snapshots, space, checks) && s.node !in asked
    requires GoodSnapshots(nodes, [s], space, checks)
    ensures SnapshotsOf(nodes, asked + [s.node], snapshots + [s], space, checks)
  {
    assert s in [s];
    assert (asked + [s.node])[..|asked|] == asked;
    assert Ids(snapshots + [s]) == Ids(snapshots) + [s.node];
    assert Distinct(Ids(snapshots) + [s.node]) by {
      assert forall i :: 0 <= i < |snapshots| ==> Ids(snapshots)[i] in asked;
    }
  }

  lemma OneMoreWithout(nodes: Nodes, asked: seq<NodeId>, snapshots: seq<Snapshot>, space: SpaceName, checks: seq<Check>, n: NodeId)
    requires SnapshotsOf(nodes, asked, snapshots, space, checks) && n in nodes && !Searchable(nodes[n], space)
    ensures SnapshotsOf(nodes, asked + [n], snapshots, space, checks)
  {
    assert (asked + [n])[..|asked|] == asked;
  }

  /** Every member is there to answer. */
  ghost predicate AllAnswer(nodes: Nodes, members: seq<NodeId>) { forall n :: n in members ==> n in nodes }

  /** The search each member answers before anything is deleted. */
  method TakeSnapshots(c: Cluster, local: NodeId, space: SpaceName, checks: seq<Check>) returns (r: Result<seq<Snapshot>>)
    requires local in c.nodes && Distinct(c.nodes[local].members)
    modifies c
    ensures c.nodes == old(c.nodes)
    ensures r.Ok? ==> SnapshotsOf(c.nodes, c.nodes[local].members, r.value, space, checks)
    ensures c.losses >= old(c.losses) && r != Err(RollbackFailed)
    ensures c.losses == old(c.losses) && AllAnswer(c.nodes, c.nodes[local].members) ==> r.Ok?
  {
    var members := c.nodes[local].members;
    var snapshots: seq<Snapshot> := [];
    for i := 0 to |members|
      invariant c.nodes == old(c.nodes)
      invariant SnapshotsOf(c.nodes, members[..i], snapshots, space, checks)
      invariant c.losses >= old(c.losses)
    {
      var n := members[i];
      assert members[..i + 1] == members[..i] + [n] && n !in members[..i];
      var found := c.SearchNode(local, n, space, checks);
      match found {
        case Ok(records) =>
          OneMoreSnapshot(c.nodes, members[..i], snapshots, space, checks, Snapshot(n, records));
          snapshots := snapshots + [Snapshot(n, records)];
        case Err(SchemaGap) =>
          OneMoreWithout(c.nodes, members[..i], snapshots, space, checks, n);
        case Err(e) => return Err(e);
      }
    }
    assert members[..|members|] == members;
    r := Ok(snapshots);
  }

  /** All snapshots are compared with the first. */
  method SnapshotsAgree(snapshots: seq<Snapshot>) returns (agree: bool)
    ensures agree <==> forall s :: s in snapshots ==> SameListing(snapshots[0].records, s.records)
  {
    hide SameListing;
    if snapshots == [] {
      return true;
    }
    var expected := snapshots[0].records;
    ListingIsReflexive(expected);
    for i := 1 to |snapshots|
      invariant forall s :: s in snapshots[..i] ==> SameListing(expected, s.records)
    {
      if !SameListing(expected, snapshots[i].records) {
        assert snapshots[i] in snapshots;
        return false;
      }
    }
    agree := true;
  }

  method DeleteOnNode(c: Cluster, local: NodeId, n: NodeId, space: SpaceName, checks: seq<Check>) returns (r: Result<nat>)
    requires local in c.nodes && n in c.nodes && Searchable(c.nodes[n], space)
    modifies c
    ensures r.Ok? ==>
      && c.nodes == old(c.nodes)[n := Erase(old(c.nodes)[n], space, checks)]
      && r.value == |MatchingRecords(old(c.nodes)[n], space, checks)|
    ensures r.Err? ==> c.nodes == old(c.nodes)
    ensures c.losses >= old(c.losses) && r != Err(RollbackFailed)
    ensures c.losses == old(c.losses) ==> r.Ok?
  {
    assert MatchingRecords(c.nodes[n], space, checks).Keys == Matching(c.nodes[n].storage[space], checks);
    if n == local {
      var handled := LocalDeleteMatching(c.nodes[local], space, checks);
      c.nodes := c.nodes[local := handled.node];
      r := Ok(handled.reply.value.count);
    } else {
      var reply, delivered := c.Forward(local, n, ReplicatedDeleteGroup(space, checks));
      match reply {
        case Ok(Deleted(count)) => r := Ok(count);
        case Ok(_) => r := Err(Other);
        case Err(e) => r := Err(e);
      }
    }
  }

  // ------------------------------------------------------------------ rollback

  /** Writing a record back where its key is free puts exactly that record there.
      Unlike the deletion, it needs a node that can route the key. */
  method RestoreOnNode(c: Cluster, local: NodeId, n: NodeId, space: SpaceName, record: Record) returns (r: Result<()>)
    requires local in c.nodes && n in c.nodes && Searchable(c.nodes[n], space)
    requires record.key !in c.nodes[n].storage[space]
    modifies c
    ensures r.Ok? ==>
      var table := old(c.nodes)[n].storage[space][record.key := record];
      c.nodes == old(c.nodes)[n := WithTable(old(c.nodes)[n], space, table)]
    ensures c.nodes.Keys == old(c.nodes).Keys
    ensures c.losses >= old(c.losses)
    ensures r.Ok? ==> Serves(old(c.nodes)[n], space)
    ensures c.losses == old(c.losses) && Serves(old(c.nodes)[n], space) ==> r.Ok?
  {
    var mutations := RestoreMutations(record);
    assert PutTable(c.nodes[n].storage[space], record.key, mutations) == c.nodes[n].storage[space][record.key := record];
    if n == local {
      var wrote := ApplyWrite(c.nodes[local], space, record.key, PutWrite(mutations));
      c.nodes := c.nodes[local := wrote.node];
      r := if wrote.result.Ok? then Ok(()) else Err(wrote.result.error);
    } else {
      r := c.ForwardWrite(local, n, space, record.key, PutWrite(mutations));
    }
  }

  lemma TableReplaced(node: Node, space: SpaceName, a: Table, b: Table)
    ensures WithTable(WithTable(node, space, a), space, b) == WithTable(node, space, b)
  {
    assert node.storage[space := a][space := b] == node.storage[space := b];
  }

  /** Records can be put back on a node that routes keys; none can on any. */
  predicate Restorable(node: Node, records: map<Bytes, Record>) { records == map[] || node.layout != [] }

  method RestoreNode(c: Cluster, local: NodeId, n: NodeId, space: SpaceName, records: map<Bytes, Record>, ghost before: Node)
    returns (r: Result<()>)
    requires local in c.nodes && n in c.nodes && Searchable(before, space) && Filed(records)
    requires forall k :: k in records ==> k in before.storage[space] && before.storage[space][k] == records[k]
    requires c.nodes[n] == WithTable(before, space, before.storage[space] - records.Keys)
    modifies c
    ensures c.nodes.Keys == old(c.nodes).Keys
    ensures r.Ok? ==> c.nodes == old(c.nodes)[n := before]
    ensures c.losses >= old(c.losses)
    ensures r.Ok? ==> Restorable(before, records)
    ensures c.losses == old(c.losses) && Restorable(before, records) ==> r.Ok?
  {
    var remaining := records.Keys;
    ghost var table := before.storage[space];
    assert records.Keys - remaining == {};
    while remaining != {}
      invariant remaining <= records.Keys
      invariant c.nodes == old(c.nodes)[n := WithTable(before, space, table - remaining)]
      invariant c.losses >= old(c.losses)
      invariant remaining != records.Keys ==> Restorable(before, records)
    {
      var k :| k in remaining;
      assert (table - remaining)[k := records[k]] == table - (remaining - {k});
      TableReplaced(before, space, table - remaining, table - (remaining - {k}));
      r := RestoreOnNode(c, local, n, space, records[k]);
      if r.Err? {
        return;
      }
      remaining := remaining - {k};
    }
    assert table - {} == table && WithTable(before, space, table) == before;
    r := Ok(());
  }

  lemma ErasedOneMore(before: Nodes, ids: seq<NodeId>, n: NodeId, space: SpaceName, checks: seq<Check>)
    requires n !in ids && n in before
    ensures Erased(before, ids, space, checks)[n] == before[n]
    ensures Erased(before, ids + [n], space, checks)[n] == Erase(before[n], space, checks)
    ensures Erased(before, ids, space, checks)[n := Erase(before[n], space, checks)] == Erased(before, ids + [n], space, checks)
    ensures Erased(before, ids + [n], space, checks)[n := before[n]] == Erased(before, ids, space, checks)
  {
  }

  /** Taking one more node of a list of different nodes. */
  lemma NextId(before: Nodes, snapshots: seq<Snapshot>, i: nat, space: SpaceName, checks: seq<Check>)
    requires GoodSnapshots(before, snapshots, space, checks) && Distinct(Ids(snapshots)) && i < |snapshots|
    ensures var n, ids := snapshots[i].node, Ids(snapshots);
      && n in before && Searchable(before[n], space) && n in ids
      && snapshots[i].records == MatchingRecords(before[n], space, checks)
      && ids[..i + 1] == ids[..i] + [n]
      && Erased(before, ids[..i], space, checks)[n] == before[n]
      && Erased(before, ids[..i + 1], space, checks)[n] == Erase(before[n], space, checks)
      && Erased(before, ids[..i], space, checks)[n := Erase(before[n], space, checks)] == Erased(before, ids[..i + 1], space, checks)
      && Erased(before, ids[..i + 1], space, checks)[n := before[n]] == Erased(before, ids[..i], space, checks)
  {
    assert snapshots[i] in snapshots && Ids(snapshots)[i] == snapshots[i].node;
    assert snapshots[i].node !in Ids(snapshots)[..i];
    ErasedOneMore(before, Ids(snapshots)[..i], snapshots[i].node, space, checks);
  }

  /** Undoes the first `applied` deletions in reverse order, record by record. */
  method Rollback(c: Cluster, local: NodeId, space: SpaceName, snapshots: seq<Snapshot>, applied: nat,
                  ghost before: Nodes, ghost checks: seq<Check>) returns (r: Result<()>)
    requires local in c.nodes && KeyedNodes(before) && applied <= |snapshots|
    requires GoodSnapshots(before, snapshots, space, checks) && Distinct(Ids(snapshots))
    requires c.nodes == Erased(before, Ids(snapshots)[..applied], space, checks)
    modifies c
    ensures r.Ok? ==> c.nodes == before
    ensures r.Err? ==> r.error == RollbackFailed
    ensures c.losses >= old(c.losses)
    ensures r.Ok? ==> AllRestorable(before, snapshots[..applied])
    ensures c.losses == old(c.losses) && AllRestorable(before, snapshots[..applied]) ==> r.Ok?
  {
    hide RecordMatches, GoodSnapshots, Restorable;
    for i := applied downto 0
      invariant c.nodes == Erased(before, Ids(snapshots)[..i], space, checks)
      invariant c.losses >= old(c.losses)
      invariant forall s :: s in snapshots[i..applied] ==> s.node in before && Restorable(before[s.node], s.records)
    {
      assert snapshots[i..applied] == [snapshots[i]] + snapshots[i + 1..applied];
      assert snapshots[i] in snapshots[..applied];
      var n := snapshots[i].node;
      NextId(before, snapshots, i, space, checks);
      assert KeyedNode(before[n]) && Keyed(before[n].storage[space]);
      assert snapshots[i].records.Keys == Matching(before[n].storage[space], checks);
      r := RestoreNode(c, local, n, space, snapshots[i].records, before[n]);
      if r.Err? {
        return Err(RollbackFailed);
      }
    }
    assert Erased(before, [], space, checks) == before && snapshots[0..applied] == snapshots[..applied];
    r := Ok(());
  }

  ghost predicate AllRestorable(nodes: Nodes, snapshots: seq<Snapshot>) {
    forall s :: s in snapshots ==> s.node in nodes && Restorable(nodes[s.node], s.records)
  }

  /** Exactly the matching records are gone from the nodes of `hit`, all of
      which held the same ones; every other member lacks the space; and `count`
      is the number of physical deletions divided by the replica factor. */
  ghost predicate DeletedEverywhere(before: Nodes, after: Nodes, local: NodeId, hit: seq<NodeId>,
                                    space: SpaceName, checks: seq<Check>, count: nat)
    requires local in before
  {
    && hit != [] && Distinct(hit)
    && (forall n :: n in hit ==> n in before[local].members && n in before && Searchable(before[n], space))
    && (forall n :: n in before[local].members ==> n in hit || (n in before && !Searchable(before[n], space)))
    && (forall n :: n in hit ==>
          SameListing(MatchingRecords(before[hit[0]], space, checks), MatchingRecords(before[n], space, checks)))
    && after == Erased(before, hit, space, checks)
    && count * Max(before[local].replicaFactor, 1) == Times(|hit|, |MatchingRecords(before[hit[0]], space, checks)|)
  }

  /** All members are there, some have the space, and these hold the same
      matching records. */
  ghost predicate Alike(nodes: Nodes, local: NodeId, space: SpaceName, checks: seq<Check>)
    requires local in nodes
  {
    var hit := Holders(nodes, nodes[local].members, space);
    && AllAnswer(nodes, nodes[local].members)
    && hit != []
    && hit[0] in nodes
    && forall n :: n in hit ==>
         n in nodes && SameListing(MatchingRecords(nodes[hit[0]], space, checks), MatchingRecords(nodes[n], space, checks))
  }

  /** The deletions divide evenly among the replicas. */
  ghost predicate Divides(nodes: Nodes, local: NodeId, space: SpaceName, checks: seq<Check>)
    requires local in nodes && Alike(nodes, local, space, checks)
  {
    var hit := Holders(nodes, nodes[local].members, space);
    Times(|hit|, |MatchingRecords(nodes[hit[0]], space, checks)|) % Max(nodes[local].replicaFactor, 1) == 0
  }

  ghost predicate Deletable(nodes: Nodes, local: NodeId, space: SpaceName, checks: seq<Check>)
    requires local in nodes
  {
    Alike(nodes, local, space, checks) && Divides(nodes, local, space, checks)
  }

  /** The deletion has to be undone on a node that cannot route the records back. */
  ghost predicate Irrevocable(nodes: Nodes, local: NodeId, space: SpaceName, checks: seq<Check>)
    requires local in nodes
  {
    && Alike(nodes, local, space, checks) && !Divides(nodes, local, space, checks)
    && exists n :: n in Holders(nodes, nodes[local].members, space) && n in nodes && nodes[n].layout == []
  }

  /** All or nothing: unless the rollback itself failed, an error leaves every
      node's store as it was, and success has deleted everywhere. With no
      message lost the deletion succeeds exactly when the stores allow it, and
      the rollback fails exactly when a store with the space belongs to a node
      without a layout. */
  method ExecuteDeleteGroup(c: Cluster, local: NodeId, space: SpaceName, checks: seq<Check>)
    returns (r: Result<nat>, ghost hit: seq<NodeId>)
    requires local in c.nodes && KeyedNodes(c.nodes) && Distinct(c.nodes[local].members)
    modifies c
    ensures r.Err? && r.error != RollbackFailed ==> c.nodes == old(c.nodes)
    ensures r.Ok? ==> DeletedEverywhere(old(c.nodes), c.nodes, local, hit, space, checks, r.value)
    ensures c.losses >= old(c.losses)
    ensures c.losses == old(c.losses) ==> (r.Ok? <==> Deletable(old(c.nodes), local, space, checks))
    ensures c.losses == old(c.losses) ==> (r == Err(RollbackFailed) <==> Irrevocable(old(c.nodes), local, space, checks))
  {
    hide Alike, Divides, DeletedEverywhere, RecordMatches, Searchable, AllRestorable;
    hit := [];
    ghost var before := c.nodes;
    var taken := TakeSnapshots(c, local, space, checks);
    if taken.Err? {
      NeedsAnswers(before, local, space, checks);
      return Err(taken.error), hit;
    }
    var snapshots := taken.value;
    hit := Ids(snapshots);
    if snapshots == [] {
      NeedsAHolder(before, local, space, checks);
      return Err(Other), hit;
    }
    var agree := SnapshotsAgree(snapshots);
    if !agree {
      NeedsAgreement(before, local, snapshots, space, checks);
      return Err(Divergence), hit;
    }
    SameMatching(before, snapshots, space, checks);
    AlikeWhenAgreed(before, local, snapshots, space, checks);
    ghost var each := |MatchingRecords(before[hit[0]], space, checks)|;
    var deleted, applied := DeleteOnAll(c, local, space, checks, Ids(snapshots), each);
    assert local in c.nodes && c.nodes[local].replicaFactor == before[local].replicaFactor by {
      ErasedAt(before, hit[..applied], space, checks, local);
    }
    var factor := Max(c.nodes[local].replicaFactor, 1);
    if deleted.Ok? {
      assert hit[..applied] == hit;
      if deleted.value % factor == 0 {
        ExactQuotient(deleted.value, factor);
        var count: nat := deleted.value / factor;
        Accounted(before, c.nodes, local, snapshots, space, checks, count);
        return Ok(count), hit;
      }
      RestorableUnlessIrrevocable(before, local, snapshots, space, checks, each);
      assert snapshots[..applied] == snapshots;
    }
    var undone := Rollback(c, local, space, snapshots, applied, before, checks);
    if undone.Err? {
      return Err(undone.error), hit;
    }
    r := Err(if deleted.Err? then deleted.error else Other);
  }

  lemma ErasedAt(nodes: Nodes, targets: seq<NodeId>, space: SpaceName, checks: seq<Check>, n: NodeId)
    requires n in nodes
    ensures n in Erased(nodes, targets, space, checks)
    ensures Erased(nodes, targets, space, checks)[n].replicaFactor == nodes[n].replicaFactor
  {
  }

  lemma NeedsAnswers(nodes: Nodes, local: NodeId, space: SpaceName, checks: seq<Check>)
    requires local in nodes
    ensures Alike(nodes, local, space, checks) ==> AllAnswer(nodes, nodes[local].members)
  {
    hide AllAnswer;
  }

  lemma NeedsAHolder(nodes: Nodes, local: NodeId, space: SpaceName, checks: seq<Check>)
    requires local in nodes && Holders(nodes, nodes[local].members, space) == []
    ensures !Alike(nodes, local, space, checks)
  {
    hide AllAnswer;
  }

  lemma NeedsAgreement(nodes: Nodes, local: NodeId, snapshots: seq<Snapshot>, space: SpaceName, checks: seq<Check>)
    requires local in nodes && SnapshotsOf(nodes, nodes[local].members, snapshots, space, checks) && snapshots != []
    requires exists s :: s in snapshots && !SameListing(snapshots[0].records, s.records)
    ensures !Alike(nodes, local, space, checks)
  {
    hide AllAnswer, MatchingRecords, Searchable;
    var s :| s in snapshots && !SameListing(snapshots[0].records, s.records);
    var i :| 0 <= i < |snapshots| && snapshots[i] == s;
    assert Ids(snapshots)[i] == s.node && Ids(snapshots)[0] == snapshots[0].node;
    assert snapshots[0] in snapshots;
  }

  lemma AlikeWhenAgreed(nodes: Nodes, local: NodeId, snapshots: seq<Snapshot>, space: SpaceName, checks: seq<Check>)
    requires local in nodes && SnapshotsOf(nodes, nodes[local].members, snapshots, space, checks) && snapshots != []
    requires KeyedNodes(nodes) && forall s :: s in snapshots ==> SameListing(snapshots[0].records, s.records)
    ensures Ids(snapshots)[0] in nodes && Alike(nodes, local, space, checks)
    ensures Divides(nodes, local, space, checks)
      <==> Times(|snapshots|, |MatchingRecords(nodes[Ids(snapshots)[0]], space, checks)|) % Max(nodes[local].replicaFactor, 1) == 0
  {
    hide MatchingRecords;
    SameMatching(nodes, snapshots, space, checks);
    assert Ids(snapshots)[0] in Ids(snapshots);
  }

  /** If the deletions do not divide, there was something to delete on every
      node, so undoing them needs every node's layout. */
  lemma RestorableUnlessIrrevocable(nodes: Nodes, local: NodeId, snapshots: seq<Snapshot>, space: SpaceName,
                                    checks: seq<Check>, each: nat)
    requires local in nodes && SnapshotsOf(nodes, nodes[local].members, snapshots, space, checks) && snapshots != []
    requires Alike(nodes, local, space, checks) && !Divides(nodes, local, space, checks)
    requires Ids(snapshots)[0] in nodes && each == |MatchingRecords(nodes[Ids(snapshots)[0]], space, checks)|
    requires forall s :: s in snapshots ==> s.node in nodes && |s.records| == each
    ensures AllRestorable(nodes, snapshots) <==> !Irrevocable(nodes, local, space, checks)
  {
    hide MatchingRecords, Alike, Divides, GoodSnapshots, AllRestorable;
    assert each > 0 by {
      if each == 0 { NothingDivides(nodes, local, snapshots, space, checks); }
    }
    RestorableWithLayouts(nodes, snapshots, each);
  }

  lemma NothingDivides(nodes: Nodes, local: NodeId, snapshots: seq<Snapshot>, space: SpaceName, checks: seq<Check>)
    requires local in nodes && SnapshotsOf(nodes, nodes[local].members, snapshots, space, checks) && snapshots != []
    requires Alike(nodes, local, space, checks)
    requires Ids(snapshots)[0] in nodes && |MatchingRecords(nodes[Ids(snapshots)[0]], space, checks)| == 0
    ensures Divides(nodes, local, space, checks)
  {
    hide MatchingRecords, GoodSnapshots;
    TimesIsProduct(|snapshots|, 0);
  }

  lemma RestorableWithLayouts(nodes: Nodes, snapshots: seq<Snapshot>, each: nat)
    requires each > 0 && forall s :: s in snapshots ==> s.node in nodes && |s.records| == each
    ensures AllRestorable(nodes, snapshots) <==> !exists n :: n in Ids(snapshots) && n in nodes && nodes[n].layout == []
  {
    if exists n :: n in Ids(snapshots) && n in nodes && nodes[n].layout == [] {
      var n :| n in Ids(snapshots) && n in nodes && nodes[n].layout == [];
      var i :| 0 <= i < |snapshots| && Ids(snapshots)[i] == n;
      assert snapshots[i] in snapshots;
      assert !AllRestorable(nodes, snapshots);
    } else {
      forall s | s in snapshots ensures Restorable(nodes[s.node], s.records) {
        var i :| 0 <= i < |snapshots| && snapshots[i] == s;
        assert Ids(snapshots)[i] == s.node && s.node in Ids(snapshots);
      }
    }
  }

  lemma Accounted(before: Nodes, after: Nodes, local: NodeId, snapshots: seq<Snapshot>, space: SpaceName,
                  checks: seq<Check>, count: nat)
    requires local in before && snapshots != []
    requires SnapshotsOf(before, before[local].members, snapshots, space, checks)
    requires forall n :: n in Ids(snapshots) ==>
      n in before && Searchable(before[n], space)
      && SameListing(MatchingRecords(before[Ids(snapshots)[0]], space, checks), MatchingRecords(before[n], space, checks))
    requires count * Max(before[local].replicaFactor, 1)
      == Times(|snapshots|, |MatchingRecords(before[Ids(snapshots)[0]], space, checks)|)
    requires after == Erased(before, Ids(snapshots), space, checks)
    ensures DeletedEverywhere(before, after, local, Ids(snapshots), space, checks, count)
  {
  }

  lemma SameMatching(nodes: Nodes, snapshots: seq<Snapshot>, space: SpaceName, checks: seq<Check>)
    requires KeyedNodes(nodes) && GoodSnapshots(nodes, snapshots, space, checks) && snapshots != []
    requires forall s :: s in snapshots ==> SameListing(snapshots[0].records, s.records)
    ensures forall n :: n in Ids(snapshots) ==>
      n in nodes && Searchable(nodes[n], space)
      && SameListing(MatchingRecords(nodes[Ids(snapshots)[0]], space, checks), MatchingRecords(nodes[n], space, checks))
  {
    assert snapshots[0] in snapshots;
    forall n | n in Ids(snapshots)
      ensures n in nodes && Searchable(nodes[n], space)
      ensures SameListing(MatchingRecords(nodes[Ids(snapshots)[0]], space, checks), MatchingRecords(nodes[n], space, checks))
    {
      var i :| 0 <= i < |snapshots| && Ids(snapshots)[i] == n;
      assert snapshots[i] in snapshots;
    }
  }

  /** The nodes still to be erased are as they were, and have the space. */
  ghost predicate Erasable(nodes: Nodes, ids: seq<NodeId>, space: SpaceName, checks: seq<Check>, each: nat) {
    forall n :: n in ids ==> n in nodes && Searchable(nodes[n], space) && |MatchingRecords(nodes[n], space, checks)| == each
  }

  /** Deletes node by node and stops at the first that fails. */
  method DeleteOnAll(c: Cluster, local: NodeId, space: SpaceName, checks: seq<Check>, ids: seq<NodeId>, ghost each: nat)
    returns (r: Result<nat>, applied: nat)
    requires local in c.nodes && Distinct(ids) && Erasable(c.nodes, ids, space, checks, each)
    modifies c
    ensures applied <= |ids| && (r.Ok? ==> applied == |ids|)
    ensures c.nodes == Erased(old(c.nodes), ids[..applied], space, checks)
    ensures r.Ok? ==> r.value == Times(|ids|, each)
    ensures c.losses >= old(c.losses) && r != Err(RollbackFailed)
    ensures c.losses == old(c.losses) ==> r.Ok?
  {
    ghost var before := c.nodes;
    var total: nat := 0;
    applied := 0;
    assert Erased(before, [], space, checks) == before;
    while applied < |ids|
      invariant applied <= |ids| && total == Times(applied, each)
      invariant c.nodes == Erased(before, ids[..applied], space, checks)
      invariant c.losses >= old(c.losses)
    {
      var n := ids[applied];
      assert n in before && n !in ids[..applied] && ids[..applied + 1] == ids[..applied] + [n];
      ErasedOneMore(before, ids[..applied], n, space, checks);
      r := DeleteOnNode(c, local, n, space, checks);
      if r.Err? {
        return;
      }
      total := total + r.value;
      applied := applied + 1;
    }
    r := Ok(total);
  }
}
