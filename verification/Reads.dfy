/** Searching and counting over whatever nodes can be reached
    (crates/server, `execute_distributed_search`, `execute_distributed_count`). */
module Reads {
  import opened Base
  import opened DataModel
  import opened Engine
  import opened KeyOrder
  import opened Node
  import opened RecordEquality
  import opened Cluster

  /** What each node answered, by node. */
  type Answers = map<NodeId, map<Bytes, Record>>

  ghost predicate Holds(answers: Answers, n: NodeId, k: Bytes) { n in answers && k in answers[n] }

  ghost predicate AgreesWith(answers: Answers, merged: map<Bytes, Record>, n: NodeId, k: Bytes) {
    Holds(answers, n, k) && k in merged && SameRecord(merged[k], answers[n][k])
  }

  /** `merged` holds one of the answers' records for each key that any of them
      holds, and equals all of them there. */
  ghost predicate MergeOf(answers: Answers, merged: map<Bytes, Record>) {
    && (forall n, k :: Holds(answers, n, k) ==> AgreesWith(answers, merged, n, k))
    && (forall k :: k in merged ==> exists n :: Holds(answers, n, k) && answers[n][k] == merged[k])
  }

  /** The answers are the matching records of members that have the space. */
  ghost predicate AnswersOf(nodes: Nodes, answers: Answers, members: seq<NodeId>, space: SpaceName, checks: seq<Check>) {
    forall n :: n in answers ==>
      n in members && n in nodes && Searchable(nodes[n], space) && answers[n] == MatchingRecords(nodes[n], space, checks)
  }

  /** Two answers hold different records under one key. */
  ghost predicate Conflict(answers: Answers) {
    exists a, b, k :: Holds(answers, a, k) && Holds(answers, b, k) && !SameRecord(answers[a][k], answers[b][k])
  }

  /** Adds one node's answer: a record that is already there stays; stops at one
      that contradicts it. */
  method MergeAnswer(merged: map<Bytes, Record>, records: map<Bytes, Record>) returns (r: Option<map<Bytes, Record>>)
    ensures r.Some? ==>
      && r.value == records + merged
      && forall k :: k in merged && k in records ==> SameRecord(merged[k], records[k])
    ensures r.None? ==> exists k :: k in merged && k in records && !SameRecord(merged[k], records[k])
  {
    hide SameRecord;
    var sum := merged;
    var remaining := records.Keys;
    while remaining != {}
      invariant remaining <= records.Keys
      invariant forall k :: k in merged && k in records && k !in remaining ==> SameRecord(merged[k], records[k])
      invariant sum == (map k | k in records && k !in remaining :: records[k]) + merged
    {
      var k :| k in remaining;
      if k in sum {
        if !SameRecord(sum[k], records[k]) {
          return None;
        }
        remaining := remaining - {k};
      } else {
        sum, remaining := sum[k := records[k]], remaining - {k};
      }
    }
    r := Some(sum);
  }

  lemma MergeExtends(answers: Answers, merged: map<Bytes, Record>, n: NodeId, filed: map<Bytes, Record>)
    requires MergeOf(answers, merged) && (n in answers ==> answers[n] == filed)
    requires forall k :: k in merged && k in filed ==> SameRecord(merged[k], filed[k])
    ensures MergeOf(answers[n := filed], filed + merged)
  {
    hide SameRecord;
    var more := answers[n := filed];
    forall m, k | Holds(more, m, k) ensures AgreesWith(more, filed + merged, m, k) {
      if m != n {
        assert Holds(answers, m, k) && AgreesWith(answers, merged, m, k);
      } else {
        SameIsReflexive(filed[k]);
      }
    }
    forall k | k in filed + merged ensures exists m :: Holds(more, m, k) && more[m][k] == (filed + merged)[k] {
      if k in merged {
        var m :| Holds(answers, m, k) && answers[m][k] == merged[k];
        assert Holds(more, m, k);
      } else {
        assert Holds(more, n, k);
      }
    }
  }

  lemma MergeConflicts(answers: Answers, merged: map<Bytes, Record>, n: NodeId, filed: map<Bytes, Record>)
    requires MergeOf(answers, merged) && (n in answers ==> answers[n] == filed)
    requires exists k :: k in merged && k in filed && !SameRecord(merged[k], filed[k])
    ensures Conflict(answers[n := filed])
  {
    hide SameRecord;
    var more := answers[n := filed];
    var k :| k in merged && k in filed && !SameRecord(merged[k], filed[k]);
    var a: NodeId :| Holds(answers, a, k) && answers[a][k] == merged[k];
    assert Holds(more, a, k) && Holds(more, n, k) && !SameRecord(more[a][k], more[n][k]);
  }

  lemma OneMoreAnswer(nodes: Nodes, answers: Answers, members: seq<NodeId>, space: SpaceName, checks: seq<Check>, n: NodeId)
    requires AnswersOf(nodes, answers, members, space, checks)
    requires n in members && n in nodes && Searchable(nodes[n], space)
    ensures AnswersOf(nodes, answers[n := MatchingRecords(nodes[n], space, checks)], members, space, checks)
    ensures answers[n := MatchingRecords(nodes[n], space, checks)] != map[]
    ensures n in answers ==> answers[n] == MatchingRecords(nodes[n], space, checks)
  {
    assert n in answers[n := MatchingRecords(nodes[n], space, checks)];
  }

  /** Every member is there to answer, and one has the space. */
  ghost predicate Hears(nodes: Nodes, members: seq<NodeId>, space: SpaceName) {
    (forall n :: n in members ==> n in nodes)
    && exists n :: n in members && n in nodes && Searchable(nodes[n], space)
  }

  /** Everyone asked has answered, or lacks the space, or was not reached. */
  ghost predicate HeardFrom(nodes: Nodes, asked: seq<NodeId>, answers: Answers, lost: set<NodeId>, space: SpaceName) {
    forall n :: n in asked ==> n in answers || n in lost || (n in nodes && !Searchable(nodes[n], space))
  }

  lemma HeardOneMore(nodes: Nodes, asked: seq<NodeId>, answers: Answers, answers2: Answers, lost: set<NodeId>, lost2: set<NodeId>,
                     space: SpaceName, n: NodeId)
    requires HeardFrom(nodes, asked, answers, lost, space) && answers.Keys <= answers2.Keys && lost <= lost2
    requires n in answers2 || n in lost2 || (n in nodes && !Searchable(nodes[n], space))
    ensures HeardFrom(nodes, asked + [n], answers2, lost2, space)
  {
    hide Searchable;
  }

  lemma NobodyHeard(nodes: Nodes, members: seq<NodeId>, space: SpaceName)
    requires HeardFrom(nodes, members, map[], {}, space)
    ensures !Hears(nodes, members, space)
  {
  }

  lemma MemberAnswers(nodes: Nodes, members: seq<NodeId>, i: nat, space: SpaceName)
    requires i < |members|
    ensures Hears(nodes, members, space) ==> members[i] in nodes
  {
    hide Searchable;
  }

  lemma NoAnswersYet(nodes: Nodes, members: seq<NodeId>, space: SpaceName, checks: seq<Check>)
    ensures AnswersOf(nodes, map[], members, space, checks) && MergeOf(map[], map[]) && HeardFrom(nodes, [], map[], {}, space)
  {
  }

  lemma SearchAnswer(node: Node, space: SpaceName, checks: seq<Check>)
    ensures Searchable(node, space) ==> LocalSearch(node, space, checks) == Ok(MatchingRecords(node, space, checks))
    ensures !Searchable(node, space) ==> LocalSearch(node, space, checks) == Err(SchemaGap)
  {
    hide RecordMatches;
  }

  lemma AnswerIsFiled(nodes: Nodes, n: NodeId, space: SpaceName, checks: seq<Check>)
    requires KeyedNodes(nodes) && n in nodes && Searchable(nodes[n], space)
    ensures Filed(MatchingRecords(nodes[n], space, checks))
  {
    hide RecordMatches;
    assert KeyedNode(nodes[n]) && Keyed(nodes[n].storage[space]);
  }

  /** Merges the answers of all members that can be reached; a member that is
      down or lacks the space is passed over. */
  method ExecuteDistributedSearch(c: Cluster, local: NodeId, space: SpaceName, checks: seq<Check>)
    returns (r: Result<seq<Record>>, ghost answers: Answers, ghost merged: map<Bytes, Record>, ghost lost: set<NodeId>)
    requires local in c.nodes && KeyedNodes(c.nodes)
    modifies c
    ensures c.nodes == old(c.nodes)
    ensures AnswersOf(c.nodes, answers, c.nodes[local].members, space, checks)
    ensures r.Ok? ==> answers != map[] && MergeOf(answers, merged) && ListsInKeyOrder(r.value, merged)
    ensures r == Err(Divergence) ==> Conflict(answers)
    ensures c.losses >= old(c.losses)
    ensures r.Ok? ==> HeardFrom(c.nodes, c.nodes[local].members, answers, lost, space)
    ensures |lost| <= c.losses - old(c.losses)
    ensures c.losses == old(c.losses) && Hears(c.nodes, c.nodes[local].members, space) ==> r.Ok? || r == Err(Divergence)
  {
    hide RecordMatches, MergeOf, Conflict, AnswersOf, Searchable, MatchingRecords, LocalSearch, HeardFrom, Hears;
    answers, merged, lost := map[], map[], {};
    NoAnswersYet(c.nodes, c.nodes[local].members, space, checks);
    assert c.nodes[local].members[..0] == [];
    var members := c.nodes[local].members;
    var sum: map<Bytes, Record> := map[];
    var successes := 0;
    for i := 0 to |members|
      invariant c.nodes == old(c.nodes)
      invariant 0 <= successes && (successes == 0 <==> answers == map[])
      invariant AnswersOf(c.nodes, answers, members, space, checks)
      invariant merged == sum && MergeOf(answers, sum)
      invariant Filed(sum)
      invariant |lost| <= c.losses - old(c.losses)
      invariant HeardFrom(c.nodes, members[..i], answers, lost, space)
    {
      var n := members[i];
      assert members[..i + 1] == members[..i] + [n];
      var found := c.SearchNode(local, n, space, checks);
      if n in c.nodes { SearchAnswer(c.nodes[n], space, checks); }
      match found {
        case Ok(records) =>
          ghost var before := answers;
          AnswerIsFiled(c.nodes, n, space, checks);
          OneMoreAnswer(c.nodes, before, members, space, checks, n);
          answers := before[n := records];
          var more := MergeAnswer(sum, records);
          if more.None? {
            MergeConflicts(before, sum, n, records);
            return Err(Divergence), answers, merged, lost;
          }
          MergeExtends(before, sum, n, records);
          HeardOneMore(c.nodes, members[..i], before, answers, lost, lost, space, n);
          sum, successes := more.value, successes + 1;
          merged := sum;
        case Err(Unavailable) =>
          HeardOneMore(c.nodes, members[..i], answers, answers, lost, lost + {n}, space, n);
          lost := lost + {n};
        case Err(SchemaGap) =>
          HeardOneMore(c.nodes, members[..i], answers, answers, lost, lost, space, n);
        case Err(e) =>
          MemberAnswers(c.nodes, members, i, space);
          return Err(e), answers, merged, lost;
      }
    }
    assert members[..|members|] == members;
    if successes == 0 {
      if lost == {} { NobodyHeard(c.nodes, members, space); }
      assert c.losses == old(c.losses) ==> |lost| == 0 && lost == {};
      return Err(Unavailable), answers, merged, lost;
    }
    var list := ListRecords(sum);
    r := Ok(list);
  }

  method ExecuteDistributedCount(c: Cluster, local: NodeId, space: SpaceName, checks: seq<Check>)
    returns (r: Result<nat>, ghost answers: Answers, ghost merged: map<Bytes, Record>, ghost lost: set<NodeId>)
    requires local in c.nodes && KeyedNodes(c.nodes)
    modifies c
    ensures c.nodes == old(c.nodes)
    ensures AnswersOf(c.nodes, answers, c.nodes[local].members, space, checks)
    ensures r.Ok? ==> answers != map[] && MergeOf(answers, merged) && r.value == |merged|
    ensures r == Err(Divergence) ==> Conflict(answers)
    ensures r.Ok? ==> HeardFrom(c.nodes, c.nodes[local].members, answers, lost, space)
    ensures |lost| <= c.losses - old(c.losses)
    ensures c.losses == old(c.losses) && Hears(c.nodes, c.nodes[local].members, space) ==> r.Ok? || r == Err(Divergence)
  {
    var found;
    found, answers, merged, lost := ExecuteDistributedSearch(c, local, space, checks);
    r := if found.Ok? then Ok(|found.value|) else Err(found.error);
  }

  /** Answers with a conflict have no merge, so a search or count that hears
      both of them fails. */
  lemma ConflictsAreNotMerged(answers: Answers, merged: map<Bytes, Record>)
    requires Conflict(answers)
    ensures !MergeOf(answers, merged)
  {
    hide SameRecord;
    var a, b, k :| Holds(answers, a, k) && Holds(answers, b, k) && !SameRecord(answers[a][k], answers[b][k]);
    if AgreesWith(answers, merged, a, k) && AgreesWith(answers, merged, b, k) {
      SameIsEuclidean(answers[a][k], answers[b][k], merged[k]);
    }
    assert !(AgreesWith(answers, merged, a, k) && AgreesWith(answers, merged, b, k));
  }

  /** A key of the logical store is held by some nodes, all alike, and the nodes
      hold nothing else. */
  ghost predicate Replicates(nodes: Nodes, space: SpaceName, logical: Table) {
    forall n, k :: n in nodes && k in TableOf(nodes[n], space) ==> k in logical && logical[k] == TableOf(nodes[n], space)[k]
  }

  /** At least one holder of each key is among those that answered. */
  ghost predicate Covered(nodes: Nodes, answered: set<NodeId>, space: SpaceName, logical: Table) {
    forall k :: k in logical ==> exists n :: n in answered && n in nodes && k in TableOf(nodes[n], space)
  }

  lemma MergedIsLogical(nodes: Nodes, answers: Answers, members: seq<NodeId>, space: SpaceName, checks: seq<Check>,
                        merged: map<Bytes, Record>, logical: Table, k: Bytes)
    requires AnswersOf(nodes, answers, members, space, checks) && MergeOf(answers, merged)
    requires Replicates(nodes, space, logical) && k in merged
    ensures k in logical && merged[k] == logical[k] && RecordMatches(logical[k], checks)
  {
    var n :| Holds(answers, n, k) && answers[n][k] == merged[k];
    assert k in TableOf(nodes[n], space);
  }

  lemma LogicalIsMerged(nodes: Nodes, answers: Answers, members: seq<NodeId>, space: SpaceName, checks: seq<Check>,
                        merged: map<Bytes, Record>, logical: Table, k: Bytes)
    requires AnswersOf(nodes, answers, members, space, checks) && MergeOf(answers, merged)
    requires Replicates(nodes, space, logical) && Covered(nodes, answers.Keys, space, logical)
    requires k in logical && RecordMatches(logical[k], checks)
    ensures k in merged
  {
    hide RecordMatches;
    var n :| n in answers.Keys && n in nodes && k in TableOf(nodes[n], space);
    assert Holds(answers, n, k);
    assert AgreesWith(answers, merged, n, k);
  }

  /** With any number of nodes down, a search that still hears from one holder
      of each key returns the logical store's own answer: exactly the matching
      records, in key order, each once; and the count is their number. */
  lemma DegradedSearchIsLogical(nodes: Nodes, answers: Answers, members: seq<NodeId>, space: SpaceName, checks: seq<Check>,
                                merged: map<Bytes, Record>, logical: Table, found: seq<Record>)
    requires AnswersOf(nodes, answers, members, space, checks) && MergeOf(answers, merged)
    requires Replicates(nodes, space, logical) && Covered(nodes, answers.Keys, space, logical)
    requires ListsInKeyOrder(found, merged)
    ensures ListsInKeyOrder(found, Selection(logical, checks))
    ensures |merged| == |Selection(logical, checks)|
  {
    MergedIsSelection(nodes, answers, members, space, checks, merged, logical);
  }

  lemma MergedIsSelection(nodes: Nodes, answers: Answers, members: seq<NodeId>, space: SpaceName, checks: seq<Check>,
                          merged: map<Bytes, Record>, logical: Table)
    requires AnswersOf(nodes, answers, members, space, checks) && MergeOf(answers, merged)
    requires Replicates(nodes, space, logical) && Covered(nodes, answers.Keys, space, logical)
    ensures merged == Selection(logical, checks)
  {
    forall k | k in merged ensures k in logical && merged[k] == logical[k] && RecordMatches(logical[k], checks) {
      MergedIsLogical(nodes, answers, members, space, checks, merged, logical, k);
    }
    forall k | k in logical && RecordMatches(logical[k], checks) ensures k in merged {
      LogicalIsMerged(nodes, answers, members, space, checks, merged, logical, k);
    }
    SameSelection(merged, logical, checks);
  }

  lemma SameSelection(merged: map<Bytes, Record>, logical: Table, checks: seq<Check>)
    requires forall k :: k in merged ==> k in logical && merged[k] == logical[k] && RecordMatches(logical[k], checks)
    requires forall k :: k in logical && RecordMatches(logical[k], checks) ==> k in merged
    ensures merged == Selection(logical, checks)
  {
    assert merged.Keys == Matching(logical, checks);
  }
}
