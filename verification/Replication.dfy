/** What the write path keeps, over single writes and over every run. */
module Replication {
  import opened Base
  import opened DataModel
  import opened Engine
  import opened Node
  import opened RecordEquality
  import opened Routing
  import opened Cluster

  // ------------------------------------------------------ one primary at a time

  /** Two nodes that know of each other, route the key to themselves and reach
      each other cannot both be confirmed, however much their views differ. */
  lemma PrimaryExclusivity(nodes: Nodes, a: NodeId, b: NodeId, space: SpaceName, key: Bytes, hash: Bytes -> u64,
                           lostByA: set<NodeId>, lostByB: set<NodeId>)
    requires a != b
    requires RoutesToItself(nodes, a, space, key, hash) && RoutesToItself(nodes, b, space, key, hash)
    requires b in nodes[a].members && a in nodes[b].members
    requires b !in lostByA && a !in lostByB
    ensures !(Confirmed(nodes, a, space, key, hash, lostByA) && Confirmed(nodes, b, space, key, hash, lostByB))
  {
    var claimOfA := ValidatePrimary(space, key, a, |nodes[a].members|);
    var claimOfB := ValidatePrimary(space, key, b, |nodes[b].members|);
    if |nodes[a].members| <= |nodes[b].members| {
      assert Handle(nodes[b], claimOfA, hash).reply == Ok(ConditionNotMet);
    } else {
      assert Handle(nodes[a], claimOfB, hash).reply == Ok(ConditionNotMet);
    }
  }

  // ----------------------------------------------------------------- one write

  /** All replicas that exist hold the same record, or none, under the key. */
  ghost predicate Agree(nodes: Nodes, replicas: seq<NodeId>, space: SpaceName, key: Bytes) {
    forall m, n :: m in replicas && n in replicas && m in nodes && n in nodes ==>
      RecordAt(nodes[m], space, key) == RecordAt(nodes[n], space, key)
  }

  lemma WroteOnRecords(before: Nodes, targets: seq<NodeId>, space: SpaceName, key: Bytes, write: Write, n: NodeId)
    requires n in before
    ensures var after := WroteOn(before, targets, space, key, write);
      && after[n].(storage := before[n].storage) == before[n]
      && (forall s, k :: (s, k) != (space, key) ==> RecordAt(after[n], s, k) == RecordAt(before[n], s, k))
      && (n !in targets ==> after[n] == before[n])
      && (n in targets && ApplyWrite(before[n], space, key, write).result.Ok? ==>
          RecordAt(after[n], space, key) == AfterWrite(RecordAt(before[n], space, key), key, write))
  {
    WriteEffect(before[n], space, key, write);
  }

  /** A write acknowledged with Unit is on every replica, each of which had it
      applied to its own record; replicas that agreed still agree. A delete
      makes them agree whatever they held before. */
  lemma UnitReachesEveryReplica(before: Nodes, after: Nodes, p: NodeId, replicas: seq<NodeId>,
                                space: SpaceName, key: Bytes, write: Write)
    requires p in before && WriteOutcome(before, after, p, replicas, space, key, write, Ok(Unit))
    ensures forall n :: n in replicas ==>
      n in after && RecordAt(after[n], space, key) == AfterWrite(RecordAt(before[n], space, key), key, write)
    ensures Agree(before, replicas, space, key) || write.DeleteWrite? ==> Agree(after, replicas, space, key)
  {
    forall n | n in before ensures true { WroteOnRecords(before, replicas, space, key, write, n); }
    forall n | n in replicas
      ensures n in after && RecordAt(after[n], space, key) == AfterWrite(RecordAt(before[n], space, key), key, write)
    {
      WroteOnRecords(before, replicas, space, key, write, n);
    }
  }

  /** Records that the source takes for equal are still equal after the same
      write, which succeeds on both or on neither. */
  lemma WriteCongruent(a: Option<Record>, b: Option<Record>, key: Bytes, write: Write)
    requires SameFound(a, b)
    ensures SameFound(AfterWrite(a, key, write), AfterWrite(b, key, write))
    ensures WriteFailure(a, key, write) == WriteFailure(b, key, write)
  {
    hide SameAttributes;
    if write.PutWrite? {
      SameIsReflexive(NewRecord(key));
      MutationsCongruent((if a.Some? then a.value else NewRecord(key)).attributes,
                         (if b.Some? then b.value else NewRecord(key)).attributes, write.mutations);
    }
  }

  /** A conditional put that every replica answered leaves them all equal, even
      from a state in which nobody knew whether they were. */
  lemma ConditionalPutHeals(before: Nodes, after: Nodes, p: NodeId, replicas: seq<NodeId>, answered: set<NodeId>,
                            space: SpaceName, key: Bytes, write: Write)
    requires p in before && p in replicas && WriteOutcome(before, after, p, replicas, space, key, write, Ok(Unit))
    requires forall n :: n in answered ==>
      n in before && SameFound(RecordAt(before[p], space, key), RecordAt(before[n], space, key))
    requires forall n :: n in replicas ==> n in answered
    ensures forall n :: n in replicas ==>
      n in after && p in after && SameFound(RecordAt(after[p], space, key), RecordAt(after[n], space, key))
  {
    hide SameFound, AfterWrite;
    UnitReachesEveryReplica(before, after, p, replicas, space, key, write);
    forall n | n in replicas ensures n in after && SameFound(RecordAt(after[p], space, key), RecordAt(after[n], space, key)) {
      WriteCongruent(RecordAt(before[p], space, key), RecordAt(before[n], space, key), key, write);
    }
  }

  /** Where replicas agree, a stopped replication reached exactly the first
      `done` of the others; the node that refused it is unchanged. */
  lemma StoppedMeansPrefix(before: Nodes, after: Nodes, p: NodeId, replicas: seq<NodeId>, done: nat,
                           space: SpaceName, key: Bytes, write: Write)
    requires p in before && p in replicas && Agree(before, replicas, space, key)
    requires ApplyWrite(before[p], space, key, write).result.Ok?
    requires StoppedAfter(before, after, Others(replicas, p), done, space, key, write)
    ensures after == WroteOn(before, Others(replicas, p)[..done], space, key, write)
  {
    var others := Others(replicas, p);
    var n := others[done];
    assert n in replicas && others[..done + 1] == others[..done] + [n];
    if n in before && ApplyWrite(before[n], space, key, write).result.Err? {
      RefusedMeansUnchanged(before[p], before[n], space, key, write);
      WroteOnUnchanged(before, others[..done], n, space, key, write);
    }
  }

  lemma RefusedMeansUnchanged(a: Node, b: Node, space: SpaceName, key: Bytes, write: Write)
    requires RecordAt(a, space, key) == RecordAt(b, space, key)
    requires ApplyWrite(a, space, key, write).result.Ok? && ApplyWrite(b, space, key, write).result.Err?
    ensures ApplyWrite(b, space, key, write).node == b
  {
    WriteEffect(a, space, key, write);
    WriteEffect(b, space, key, write);
  }

  lemma WroteOnUnchanged(nodes: Nodes, targets: seq<NodeId>, n: NodeId, space: SpaceName, key: Bytes, write: Write)
    requires n in nodes && ApplyWrite(nodes[n], space, key, write).node == nodes[n]
    ensures WroteOn(nodes, targets + [n], space, key, write) == WroteOn(nodes, targets, space, key, write)
  {
  }

  /** After a failed replication the primary is as it was, and the replicas
      still agree exactly when no other replica had taken the write yet, or
      when the write would not have changed the record. */
  lemma FailedReplicationExact(before: Nodes, after: Nodes, p: NodeId, replicas: seq<NodeId>, done: nat,
                               space: SpaceName, key: Bytes, write: Write)
    requires p in before && p in replicas && Agree(before, replicas, space, key)
    requires ApplyWrite(before[p], space, key, write).result.Ok?
    requires StoppedAfter(before, after, Others(replicas, p), done, space, key, write)
    ensures p in after && after[p] == before[p]
    ensures Agree(after, replicas, space, key)
      <==> done == 0 || AfterWrite(RecordAt(before[p], space, key), key, write) == RecordAt(before[p], space, key)
  {
    hide AfterWrite, ApplyWrite;
    var others := Others(replicas, p);
    StoppedMeansPrefix(before, after, p, replicas, done, space, key, write);
    forall n | n in before
      ensures RecordAt(after[n], space, key)
        == if n in others[..done] then AfterWrite(RecordAt(before[n], space, key), key, write) else RecordAt(before[n], space, key)
    {
      WroteOnRecords(before, others[..done], space, key, write, n);
    }
    WroteOnRecords(before, others[..done], space, key, write, p);
    if done > 0 {
      var first := others[0];
      assert first in others[..done] && first in replicas && first in before;
      if AfterWrite(RecordAt(before[p], space, key), key, write) != RecordAt(before[p], space, key) {
        assert RecordAt(after[first], space, key) != RecordAt(after[p], space, key);
      }
    }
  }

  /** However replication stops, the replicas still agree. */
  ghost predicate EveryStopIsHarmless(before: Nodes, p: NodeId, replicas: seq<NodeId>, space: SpaceName, key: Bytes, write: Write) {
    forall after: Nodes, done: nat | StoppedAfter(before, after, Others(replicas, p), done, space, key, write) ::
      Agree(after, replicas, space, key)
  }

  /** A write that every replica would take can leave them apart by failing
      exactly if there are two secondaries or more and it changes the record. */
  lemma EveryStopIsHarmlessExactly(before: Nodes, p: NodeId, replicas: seq<NodeId>, space: SpaceName, key: Bytes, write: Write)
    requires p in before && p in replicas && Agree(before, replicas, space, key)
    requires AllTook(before, replicas, space, key, write)
    ensures EveryStopIsHarmless(before, p, replicas, space, key, write)
      <==> |Others(replicas, p)| <= 1 || AfterWrite(RecordAt(before[p], space, key), key, write) == RecordAt(before[p], space, key)
  {
    hide AfterWrite, ApplyWrite, Agree, StoppedAfter;
    var others := Others(replicas, p);
    forall after: Nodes, done: nat | StoppedAfter(before, after, others, done, space, key, write)
      ensures done < |others|
      ensures Agree(after, replicas, space, key)
        <==> done == 0 || AfterWrite(RecordAt(before[p], space, key), key, write) == RecordAt(before[p], space, key)
    {
      StoppedShort(before, after, others, done, space, key, write);
      FailedReplicationExact(before, after, p, replicas, done, space, key, write);
    }
    if |others| >= 2 {
      var after := WroteOn(before, others[..1], space, key, write);
      StopsAfterOne(before, p, replicas, space, key, write);
      assert EveryStopIsHarmless(before, p, replicas, space, key, write) ==> Agree(after, replicas, space, key);
    }
  }

  lemma StoppedShort(before: Nodes, after: Nodes, targets: seq<NodeId>, done: nat, space: SpaceName, key: Bytes, write: Write)
    requires StoppedAfter(before, after, targets, done, space, key, write)
    ensures done < |targets|
  {
  }

  lemma StopsAfterOne(before: Nodes, p: NodeId, replicas: seq<NodeId>, space: SpaceName, key: Bytes, write: Write)
    requires |Others(replicas, p)| >= 2 && AllTook(before, replicas, space, key, write)
    ensures var others := Others(replicas, p);
      StoppedAfter(before, WroteOn(before, others[..1], space, key, write), others, 1, space, key, write)
  {
    var others := Others(replicas, p);
    assert forall n :: n in others[..1] ==> n in others;
  }

  /** A list that the primary's own engine refuses part-way leaves the replicas
      equal exactly if what it had applied changed nothing, or if no other
      replica is there to differ. */
  lemma LocalFailureExact(before: Nodes, after: Nodes, p: NodeId, replicas: seq<NodeId>, space: SpaceName, key: Bytes, write: Write)
    requires p in before && p in replicas && Agree(before, replicas, space, key)
    requires Serves(before[p], space) && LocalFailure(before, after, p, space, key, write)
    ensures Agree(after, replicas, space, key)
      <==> AfterWrite(RecordAt(before[p], space, key), key, write) == RecordAt(before[p], space, key)
           || Alone(before, replicas, p)
  {
    hide AfterWrite, ApplyWrite;
    WriteEffect(before[p], space, key, write);
    assert RecordAt(after[p], space, key) == AfterWrite(RecordAt(before[p], space, key), key, write);
    if !Alone(before, replicas, p) {
      var n :| n in replicas && n in before && n != p;
      assert after[n] == before[n] && RecordAt(before[n], space, key) == RecordAt(before[p], space, key);
    }
  }

  /** No replica but `p` is running. */
  ghost predicate Alone(nodes: Nodes, replicas: seq<NodeId>, p: NodeId) {
    forall n :: n in replicas && n in nodes ==> n == p
  }

  // ------------------------------------------------------------ runs of writes

  /** Every daemon has the same spaces and the same registered nodes. */
  ghost predicate CommonView(nodes: Nodes, catalog: map<SpaceName, Space>, layout: seq<NodeId>) {
    Distinct(layout) && forall n :: n in nodes ==> nodes[n].catalog == catalog && nodes[n].layout == layout
  }

  /** The placement of a key under the common view. */
  function Placed(catalog: map<SpaceName, Space>, layout: seq<NodeId>, hash: Bytes -> u64, space: SpaceName, key: Bytes)
    : Result<PlacementDecision>
  {
    if space !in catalog then Err(SchemaGap) else Locate(layout, catalog[space].options, hash(key))
  }

  /** All replicas of all keys agree. */
  ghost predicate AllAgree(nodes: Nodes, catalog: map<SpaceName, Space>, layout: seq<NodeId>, hash: Bytes -> u64) {
    forall space, key :: Placed(catalog, layout, hash, space, key).Ok? ==>
      Agree(nodes, Placed(catalog, layout, hash, space, key).value.replicas, space, key)
  }

  datatype Event = Event(space: SpaceName, key: Bytes, op: ClientWrite, reply: Result<Response>)

  /** Where all nodes share a view, every peer accepts the claim of the node to
      which the view sends the key, and refuses any other node's claim unless it
      knows fewer nodes than the claimant. */
  lemma CommonViewJudges(nodes: Nodes, catalog: map<SpaceName, Space>, layout: seq<NodeId>, hash: Bytes -> u64,
                         space: SpaceName, key: Bytes, claimant: NodeId, peer: NodeId)
    requires CommonView(nodes, catalog, layout) && claimant in nodes && peer in nodes
    requires Placed(catalog, layout, hash, space, key).Ok?
    ensures var size := |nodes[claimant].members|;
      Handle(nodes[peer], ValidatePrimary(space, key, claimant, size), hash).reply
      == Ok(if claimant == Placed(catalog, layout, hash, space, key).value.primary || |nodes[peer].members| < size
            then Unit else ConditionNotMet)
  {
    hide Locate;
  }

  /** So with all its members running the rightful primary is confirmed. */
  lemma RightfulPrimaryIsWelcome(nodes: Nodes, catalog: map<SpaceName, Space>, layout: seq<NodeId>, hash: Bytes -> u64,
                                 space: SpaceName, key: Bytes, p: NodeId)
    requires CommonView(nodes, catalog, layout) && p in nodes
    requires Placed(catalog, layout, hash, space, key).Ok? && Placed(catalog, layout, hash, space, key).value.primary == p
    requires forall n :: n in nodes[p].members ==> n in nodes
    ensures RoutesToItself(nodes, p, space, key, hash)
    ensures Welcome(nodes, p, space, key, hash) && Confirmed(nodes, p, space, key, hash, {})
  {
    hide Locate;
    forall n | n in nodes[p].members && n != p
      ensures n in nodes && Handle(nodes[n], ValidatePrimary(space, key, p, |nodes[p].members|), hash).reply == Ok(Unit)
    {
      CommonViewJudges(nodes, catalog, layout, hash, space, key, p, n);
    }
  }

  ghost predicate Step(before: Nodes, after: Nodes, hash: Bytes -> u64, e: Event) {
    ClientStep(before, after, hash, e.space, e.key, e.op, e.reply)
  }

  ghost predicate Run(states: seq<Nodes>, events: seq<Event>, hash: Bytes -> u64) {
    |states| == |events| + 1
    && forall i :: 0 <= i < |events| ==> Step(states[i], states[i + 1], hash, events[i])
  }

  /** What a client asks for, without the reply. */
  datatype Operation = Operation(space: SpaceName, key: Bytes, op: ClientWrite)

  function OperationOf(e: Event): Operation { Operation(e.space, e.key, e.op) }

  function Answered(o: Operation, reply: Result<Response>): Event { Event(o.space, o.key, o.op, reply) }

  /** With some messages lost or none, the node's peers let it be primary. */
  ghost predicate Confirmable(nodes: Nodes, p: NodeId, space: SpaceName, key: Bytes, hash: Bytes -> u64)
    requires p in nodes
  {
    exists lost: set<NodeId> :: Confirmed(nodes, p, space, key, hash, lost)
  }

  /** The operation can get as far as the node's own store: by its own view and
      its peers' the node is the primary, and the checks hold. */
  ghost predicate Admitted(nodes: Nodes, p: NodeId, hash: Bytes -> u64, o: Operation) {
    && RoutesToItself(nodes, p, o.space, o.key, hash) && Confirmable(nodes, p, o.space, o.key, hash)
    && MayWrite(nodes[p], o.space, o.key, o.op)
  }

  /** ... and the node has the space, too. */
  ghost predicate WouldWrite(nodes: Nodes, p: NodeId, hash: Bytes -> u64, o: Operation) {
    Admitted(nodes, p, hash, o) && Serves(nodes[p], o.space)
  }

  /** The write leaves the node's own record as it is. */
  predicate Idle(node: Node, space: SpaceName, key: Bytes, write: Write) {
    AfterWrite(RecordAt(node, space, key), key, write) == RecordAt(node, space, key)
  }

  predicate Refused(node: Node, space: SpaceName, key: Bytes, write: Write) {
    WriteFailure(RecordAt(node, space, key), key, write).Some?
  }

  /** If the operation gets to its primary's store, its list takes effect there,
      or is refused without having changed the record. */
  ghost predicate LeavesNoLocalTrace(nodes: Nodes, hash: Bytes -> u64, o: Operation) {
    forall p :: WouldWrite(nodes, p, hash, o) ==>
      var write := WriteOf(nodes[p].catalog[o.space], o.key, o.op);
      !Refused(nodes[p], o.space, o.key, write) || Idle(nodes[p], o.space, o.key, write)
  }

  lemma TracelessAt(nodes: Nodes, p: NodeId, hash: Bytes -> u64, o: Operation)
    requires LeavesNoLocalTrace(nodes, hash, o) && Admitted(nodes, p, hash, o)
    ensures Serves(nodes[p], o.space) ==>
      var write := WriteOf(nodes[p].catalog[o.space], o.key, o.op);
      !Refused(nodes[p], o.space, o.key, write) || Idle(nodes[p], o.space, o.key, write)
  {
    if Serves(nodes[p], o.space) { assert WouldWrite(nodes, p, hash, o); }
  }

  /** How a step can change the records of a key: not at all, everywhere, on the
      primary by a refused list, or on a prefix of the other replicas. */
  lemma StepShape(before: Nodes, after: Nodes, catalog: map<SpaceName, Space>, layout: seq<NodeId>, hash: Bytes -> u64, e: Event)
    returns (p: NodeId, replicas: seq<NodeId>, write: Write, done: nat)
    requires CommonView(before, catalog, layout) && Step(before, after, hash, e)
    requires before != after || e.reply == Ok(Unit)
    ensures Placed(catalog, layout, hash, e.space, e.key).Ok?
    ensures replicas == Placed(catalog, layout, hash, e.space, e.key).value.replicas
    ensures p == Placed(catalog, layout, hash, e.space, e.key).value.primary
    ensures replicas != [] && p == replicas[0] && p in before && Distinct(replicas)
    ensures Admitted(before, p, hash, OperationOf(e))
    ensures e.space in catalog && write == WriteOf(catalog[e.space], e.key, e.op)
    ensures (e.reply == Ok(Unit) && AllTook(before, replicas, e.space, e.key, write)
             && after == WroteOn(before, replicas, e.space, e.key, write))
      || (e.reply.Err? && LocalFailure(before, after, p, e.space, e.key, write))
      || (e.reply.Err? && ApplyWrite(before[p], e.space, e.key, write).result.Ok?
          && StoppedAfter(before, after, Others(replicas, p), done, e.space, e.key, write))
  {
    hide Confirmed, ApplyWrite;
    var unreached: set<NodeId>;
    p, unreached :| CarriedOut(before, after, p, unreached, hash, e.space, e.key, e.op, e.reply);
    replicas := LocateKey(before[p], e.space, e.key, hash).value.replicas;
    write := WriteOf(catalog[e.space], e.key, e.op);
    LocateWellFormed(layout, catalog[e.space].options, hash(e.key));
    done := 0;
    if e.reply.Err? && !LocalFailure(before, after, p, e.space, e.key, write) {
      done :| StoppedAfter(before, after, Others(replicas, p), done, e.space, e.key, write);
    }
  }

  /** A step changes the records of its own key only. */
  lemma StepFrame(before: Nodes, after: Nodes, catalog: map<SpaceName, Space>, layout: seq<NodeId>, hash: Bytes -> u64, e: Event)
    requires CommonView(before, catalog, layout) && Step(before, after, hash, e)
    ensures after.Keys == before.Keys && CommonView(after, catalog, layout)
    ensures forall n, s, k :: n in before && (s, k) != (e.space, e.key) ==> RecordAt(after[n], s, k) == RecordAt(before[n], s, k)
  {
    if before != after {
      var p, replicas, write, done := StepShape(before, after, catalog, layout, hash, e);
      var targets := if e.reply.Ok? then replicas
                     else if LocalFailure(before, after, p, e.space, e.key, write) then [p]
                     else if after == WroteOn(before, Others(replicas, p)[..done], e.space, e.key, write) then Others(replicas, p)[..done]
                     else Others(replicas, p)[..done + 1];
      WroteOnFrame(before, after, targets, e.space, e.key, write);
    }
  }

  lemma WroteOnFrame(before: Nodes, after: Nodes, targets: seq<NodeId>, space: SpaceName, key: Bytes, write: Write)
    requires after == WroteOn(before, targets, space, key, write)
    ensures after.Keys == before.Keys
    ensures forall n :: n in before ==> after[n].(storage := before[n].storage) == before[n]
    ensures forall n, s, k :: n in before && (s, k) != (space, key) ==> RecordAt(after[n], s, k) == RecordAt(before[n], s, k)
  {
    forall n | n in before
      ensures after[n].(storage := before[n].storage) == before[n]
      ensures forall s, k :: (s, k) != (space, key) ==> RecordAt(after[n], s, k) == RecordAt(before[n], s, k)
    {
      WroteOnRecords(before, targets, space, key, write, n);
    }
  }

  ghost predicate AtMostOneSecondary(catalog: map<SpaceName, Space>, layout: seq<NodeId>, hash: Bytes -> u64, e: Event) {
    var placed := Placed(catalog, layout, hash, e.space, e.key);
    placed.Ok? ==> |placed.value.replicas| <= 2
  }

  /** The step was answered, or changed nothing, or no second replica of its key
      is running. */
  ghost predicate Gentle(before: Nodes, after: Nodes, catalog: map<SpaceName, Space>, layout: seq<NodeId>,
                         hash: Bytes -> u64, e: Event)
  {
    || e.reply.Ok? || before == after
    || (Placed(catalog, layout, hash, e.space, e.key).Ok?
        && Alone(before, Placed(catalog, layout, hash, e.space, e.key).value.replicas,
                 Placed(catalog, layout, hash, e.space, e.key).value.primary))
  }

  /** On a key with one secondary at most every step is gentle, failed or not,
      unless the primary's engine refuses the list after it changed the record. */
  lemma SmallGroupsAreGentle(before: Nodes, after: Nodes, catalog: map<SpaceName, Space>, layout: seq<NodeId>,
                             hash: Bytes -> u64, e: Event)
    requires CommonView(before, catalog, layout) && Step(before, after, hash, e)
    requires AtMostOneSecondary(catalog, layout, hash, e) && LeavesNoLocalTrace(before, hash, OperationOf(e))
    requires var placed := Placed(catalog, layout, hash, e.space, e.key);
      placed.Ok? ==> Agree(before, placed.value.replicas, e.space, e.key)
    ensures Gentle(before, after, catalog, layout, hash, e)
  {
    hide ApplyWrite, AfterWrite;
    if before != after && e.reply.Err? {
      var p, replicas, write, done := StepShape(before, after, catalog, layout, hash, e);
      TracelessAt(before, p, hash, OperationOf(e));
      if LocalFailure(before, after, p, e.space, e.key, write) {
        ChangedLocally(before, after, p, e.space, e.key, write);
      } else {
        OthersCount(replicas, p);
        StoppedMeansPrefix(before, after, p, replicas, done, e.space, e.key, write);
        WroteNowhere(before, Others(replicas, p)[..done], e.space, e.key, write);
      }
    }
  }

  /** A step keeps all replicas of all keys equal exactly if it is gentle: a
      write that fails after it changed anything has left replicas apart. */
  lemma StepAgreementExact(before: Nodes, after: Nodes, catalog: map<SpaceName, Space>, layout: seq<NodeId>,
                           hash: Bytes -> u64, e: Event)
    requires CommonView(before, catalog, layout) && Step(before, after, hash, e)
    requires AllAgree(before, catalog, layout, hash)
    ensures AllAgree(after, catalog, layout, hash) <==> Gentle(before, after, catalog, layout, hash, e)
  {
    hide Gentle, Agree;
    StepFrame(before, after, catalog, layout, hash, e);
    assert Placed(catalog, layout, hash, e.space, e.key).Ok? ==>
      Agree(before, Placed(catalog, layout, hash, e.space, e.key).value.replicas, e.space, e.key);
    OwnKeyExact(before, after, catalog, layout, hash, e);
    forall s, k | Placed(catalog, layout, hash, s, k).Ok? && (s, k) != (e.space, e.key)
      ensures Agree(after, Placed(catalog, layout, hash, s, k).value.replicas, s, k)
    {
      AgreementUntouched(before, after, Placed(catalog, layout, hash, s, k).value.replicas, e, s, k);
    }
  }

  lemma AgreementUntouched(before: Nodes, after: Nodes, replicas: seq<NodeId>, e: Event, s: SpaceName, k: Bytes)
    requires after.Keys == before.Keys && Agree(before, replicas, s, k)
    requires forall n, s, k :: n in before && (s, k) != (e.space, e.key) ==> RecordAt(after[n], s, k) == RecordAt(before[n], s, k)
    ensures (s, k) != (e.space, e.key) ==> Agree(after, replicas, s, k)
  {
  }

  lemma OwnKeyExact(before: Nodes, after: Nodes, catalog: map<SpaceName, Space>, layout: seq<NodeId>,
                    hash: Bytes -> u64, e: Event)
    requires CommonView(before, catalog, layout) && Step(before, after, hash, e)
    requires var placed := Placed(catalog, layout, hash, e.space, e.key);
      placed.Ok? ==> Agree(before, placed.value.replicas, e.space, e.key)
    ensures var placed := Placed(catalog, layout, hash, e.space, e.key);
      (placed.Ok? ==> Agree(after, placed.value.replicas, e.space, e.key)) <==> Gentle(before, after, catalog, layout, hash, e)
  {
    hide Agree, ApplyWrite, AfterWrite, StoppedAfter;
    if before != after {
      var p, replicas, write, done := StepShape(before, after, catalog, layout, hash, e);
      if e.reply.Ok? {
        UnitReachesEveryReplica(before, after, p, replicas, e.space, e.key, write);
      } else if LocalFailure(before, after, p, e.space, e.key, write) {
        ChangedLocally(before, after, p, e.space, e.key, write);
        LocalFailureExact(before, after, p, replicas, e.space, e.key, write);
      } else {
        FailedReplicationExact(before, after, p, replicas, done, e.space, e.key, write);
        ChangedElsewhere(before, after, p, replicas, done, e.space, e.key, write);
      }
    }
  }

  lemma ChangedLocally(before: Nodes, after: Nodes, p: NodeId, space: SpaceName, key: Bytes, write: Write)
    requires p in before && LocalFailure(before, after, p, space, key, write) && after != before
    ensures Serves(before[p], space) && Refused(before[p], space, key, write) && !Idle(before[p], space, key, write)
    ensures RecordAt(after[p], space, key) == AfterWrite(RecordAt(before[p], space, key), key, write)
  {
    hide AfterWrite, WriteFailure, ApplyWrite;
    WriteEffect(before[p], space, key, write);
    var wrote := ApplyWrite(before[p], space, key, write).node;
    assert before[p := before[p]] == before;
    if Serves(before[p], space) && AfterWrite(RecordAt(before[p], space, key), key, write) == RecordAt(before[p], space, key) {
      forall s, k ensures RecordAt(wrote, s, k) == RecordAt(before[p], s, k) {}
      SameRecords(wrote, before[p]);
    }
  }

  /** A stopped replication that changed anything changed a second replica. */
  lemma ChangedElsewhere(before: Nodes, after: Nodes, p: NodeId, replicas: seq<NodeId>, done: nat,
                         space: SpaceName, key: Bytes, write: Write)
    requires p in before && p in replicas && Agree(before, replicas, space, key)
    requires ApplyWrite(before[p], space, key, write).result.Ok? && after != before
    requires StoppedAfter(before, after, Others(replicas, p), done, space, key, write)
    ensures done > 0 && AfterWrite(RecordAt(before[p], space, key), key, write) != RecordAt(before[p], space, key)
    ensures !Alone(before, replicas, p)
  {
    hide AfterWrite, WriteFailure, ApplyWrite;
    var others := Others(replicas, p);
    StoppedMeansPrefix(before, after, p, replicas, done, space, key, write);
    WroteNowhere(before, others[..done], space, key, write);
    assert others[0] in others[..done] && others[0] in before && others[0] in replicas && others[0] != p;
    if AfterWrite(RecordAt(before[p], space, key), key, write) == RecordAt(before[p], space, key) {
      IdleEverywhere(before, others[..done], p, replicas, space, key, write);
    }
  }

  lemma WroteNowhere(nodes: Nodes, targets: seq<NodeId>, space: SpaceName, key: Bytes, write: Write)
    ensures targets == [] ==> WroteOn(nodes, targets, space, key, write) == nodes
  {
  }

  lemma IdleEverywhere(nodes: Nodes, targets: seq<NodeId>, p: NodeId, replicas: seq<NodeId>,
                       space: SpaceName, key: Bytes, write: Write)
    requires p in nodes && p in replicas && Agree(nodes, replicas, space, key) && forall n :: n in targets ==> n in replicas
    requires AfterWrite(RecordAt(nodes[p], space, key), key, write) == RecordAt(nodes[p], space, key)
    ensures WroteOn(nodes, targets, space, key, write) == nodes
  {
    hide AfterWrite, ApplyWrite, Agree;
    forall n | n in nodes && n in targets ensures ApplyWrite(nodes[n], space, key, write).node == nodes[n] {
      IdleOn(nodes, n, p, replicas, space, key, write);
    }
  }

  lemma IdleOn(nodes: Nodes, n: NodeId, p: NodeId, replicas: seq<NodeId>, space: SpaceName, key: Bytes, write: Write)
    requires n in nodes && p in nodes && n in replicas && p in replicas && Agree(nodes, replicas, space, key)
    requires AfterWrite(RecordAt(nodes[p], space, key), key, write) == RecordAt(nodes[p], space, key)
    ensures ApplyWrite(nodes[n], space, key, write).node == nodes[n]
  {
    hide AfterWrite, WriteFailure, ApplyWrite;
    WriteEffect(nodes[n], space, key, write);
    var wrote := ApplyWrite(nodes[n], space, key, write).node;
    if Serves(nodes[n], space) {
      forall s, k ensures RecordAt(wrote, s, k) == RecordAt(nodes[n], s, k) {}
      SameRecords(wrote, nodes[n]);
    }
  }

  lemma {:induction false} OthersCount(replicas: seq<NodeId>, p: NodeId)
    ensures |Others(replicas, p)| + (if p in replicas then 1 else 0) <= |replicas|
  {
    if replicas != [] { OthersCount(replicas[1..], p); }
  }

  ghost predicate GentleRun(states: seq<Nodes>, events: seq<Event>, catalog: map<SpaceName, Space>, layout: seq<NodeId>,
                            hash: Bytes -> u64, n: nat)
    requires |states| == |events| + 1 && n <= |events|
  {
    forall i :: 0 <= i < n ==> Gentle(states[i], states[i + 1], catalog, layout, hash, events[i])
  }

  ghost predicate AgreesThrough(states: seq<Nodes>, catalog: map<SpaceName, Space>, layout: seq<NodeId>, hash: Bytes -> u64, n: nat)
    requires n < |states|
  {
    forall i :: 0 <= i <= n ==> AllAgree(states[i], catalog, layout, hash)
  }

  /** Over every run of puts, conditional puts and deletes, with any messages
      lost: replicas that agree at the start agree after every operation exactly
      if every operation was gentle. */
  lemma {:induction false} RunsKeepAgreement(states: seq<Nodes>, events: seq<Event>, catalog: map<SpaceName, Space>,
                                             layout: seq<NodeId>, hash: Bytes -> u64, n: nat)
    requires Run(states, events, hash) && n <= |events|
    requires CommonView(states[0], catalog, layout) && AllAgree(states[0], catalog, layout, hash)
    ensures CommonView(states[n], catalog, layout)
    ensures AgreesThrough(states, catalog, layout, hash, n) <==> GentleRun(states, events, catalog, layout, hash, n)
  {
    hide AllAgree, Gentle, Step, CommonView, Placed;
    if n > 0 {
      RunsKeepAgreement(states, events, catalog, layout, hash, n - 1);
      var before, after, e := states[n - 1], states[n - 1 + 1], events[n - 1];
      assert Step(before, after, hash, e);
      StepFrame(before, after, catalog, layout, hash, e);
      assert GentleRun(states, events, catalog, layout, hash, n)
        <==> GentleRun(states, events, catalog, layout, hash, n - 1) && Gentle(before, after, catalog, layout, hash, e);
      if AgreesThrough(states, catalog, layout, hash, n - 1) {
        assert AllAgree(before, catalog, layout, hash);
        StepAgreementExact(before, after, catalog, layout, hash, e);
      }
    }
  }

  // ------------------------------------------- refinement of a sequential store

  /** The record the cluster stands for: the one its primary holds. */
  ghost function Logical(nodes: Nodes, catalog: map<SpaceName, Space>, layout: seq<NodeId>, hash: Bytes -> u64,
                         space: SpaceName, key: Bytes): Option<Record>
  {
    var placed := Placed(catalog, layout, hash, space, key);
    if placed.Ok? && placed.value.primary in nodes then RecordAt(nodes[placed.value.primary], space, key) else None
  }

  /** What an operation does to a record of one map, with no cluster: an
      acknowledged write changes its own record and every other reply changes
      nothing. */
  ghost function Stepped(record: Option<Record>, catalog: map<SpaceName, Space>, e: Event, space: SpaceName, key: Bytes)
    : Option<Record>
  {
    if e.space == space && e.key == key && e.reply == Ok(Unit) && space in catalog
    then AfterWrite(record, key, WriteOf(catalog[space], key, e.op)) else record
  }

  /** The sequential store after a run of operations. */
  ghost function Sequential(events: seq<Event>, catalog: map<SpaceName, Space>, space: SpaceName, key: Bytes,
                            initial: Option<Record>): Option<Record>
  {
    if events == [] then initial
    else
      var n := |events| - 1;
      Stepped(Sequential(events[..n], catalog, space, key, initial), catalog, events[n], space, key)
  }

  lemma SequentialOneMore(events: seq<Event>, e: Event, catalog: map<SpaceName, Space>, space: SpaceName, key: Bytes,
                          initial: Option<Record>)
    ensures Sequential(events + [e], catalog, space, key, initial)
      == Stepped(Sequential(events, catalog, space, key, initial), catalog, e, space, key)
  {
    assert (events + [e])[..|events|] == events;
  }

  /** The step changed the logical store exactly as its reply says. */
  ghost predicate StepRefined(before: Nodes, after: Nodes, catalog: map<SpaceName, Space>, layout: seq<NodeId>,
                              hash: Bytes -> u64, e: Event)
  {
    forall space, key ::
      Logical(after, catalog, layout, hash, space, key)
      == Stepped(Logical(before, catalog, layout, hash, space, key), catalog, e, space, key)
  }

  /** The primary's engine refused the list after it had changed the record. */
  ghost predicate HalfApplied(before: Nodes, after: Nodes, hash: Bytes -> u64, e: Event) {
    after != before
    && exists p :: RoutesToItself(before, p, e.space, e.key, hash)
                   && LocalFailure(before, after, p, e.space, e.key, WriteOf(before[p].catalog[e.space], e.key, e.op))
  }

  /** For any number of replicas and any lost messages, a step changes the
      logical store exactly as its reply says, unless it is half applied. */
  lemma StepRefinesExactly(before: Nodes, after: Nodes, catalog: map<SpaceName, Space>, layout: seq<NodeId>, hash: Bytes -> u64,
                           e: Event)
    requires CommonView(before, catalog, layout) && Step(before, after, hash, e)
    ensures StepRefined(before, after, catalog, layout, hash, e) <==> !HalfApplied(before, after, hash, e)
  {
    hide Locate, ApplyWrite, AfterWrite, Step, LocalFailure;
    StepFrame(before, after, catalog, layout, hash, e);
    if HalfApplied(before, after, hash, e) {
      HalfAppliedShows(before, after, catalog, layout, hash, e);
      assert !StepRefined(before, after, catalog, layout, hash, e);
    } else {
      forall space, key
        ensures Logical(after, catalog, layout, hash, space, key)
                == Stepped(Logical(before, catalog, layout, hash, space, key), catalog, e, space, key)
      {
        if (space, key) == (e.space, e.key) && (before != after || e.reply == Ok(Unit)) {
          StepAtPrimary(before, after, catalog, layout, hash, e);
        }
      }
    }
  }

  /** Half of a list on the primary shows in the logical store, although the
      operation failed. */
  lemma HalfAppliedShows(before: Nodes, after: Nodes, catalog: map<SpaceName, Space>, layout: seq<NodeId>, hash: Bytes -> u64, e: Event)
    requires CommonView(before, catalog, layout) && Step(before, after, hash, e) && HalfApplied(before, after, hash, e)
    ensures Logical(after, catalog, layout, hash, e.space, e.key)
      != Stepped(Logical(before, catalog, layout, hash, e.space, e.key), catalog, e, e.space, e.key)
  {
    hide Locate, ApplyWrite, AfterWrite, Step, StoppedAfter;
    var p :| RoutesToItself(before, p, e.space, e.key, hash)
             && LocalFailure(before, after, p, e.space, e.key, WriteOf(before[p].catalog[e.space], e.key, e.op));
    var q, replicas, write, done := StepShape(before, after, catalog, layout, hash, e);
    ChangedLocally(before, after, p, e.space, e.key, write);
    assert e.reply.Ok? ==> p in replicas;
  }

  lemma StepAtPrimary(before: Nodes, after: Nodes, catalog: map<SpaceName, Space>, layout: seq<NodeId>, hash: Bytes -> u64, e: Event)
    requires CommonView(before, catalog, layout) && Step(before, after, hash, e) && !HalfApplied(before, after, hash, e)
    requires before != after || e.reply == Ok(Unit)
    ensures e.space in catalog && Placed(catalog, layout, hash, e.space, e.key).Ok?
    ensures var p := Placed(catalog, layout, hash, e.space, e.key).value.primary;
      && p in before && p in after
      && RecordAt(after[p], e.space, e.key)
         == if e.reply == Ok(Unit) then AfterWrite(RecordAt(before[p], e.space, e.key), e.key, WriteOf(catalog[e.space], e.key, e.op))
            else RecordAt(before[p], e.space, e.key)
  {
    hide ApplyWrite, AfterWrite;
    var p, replicas, write, done := StepShape(before, after, catalog, layout, hash, e);
    if e.reply.Ok? {
      UnitReachesEveryReplica(before, after, p, replicas, e.space, e.key, write);
    } else {
      StoppedKeepsPrimary(before, after, p, Others(replicas, p), done, e.space, e.key, write);
    }
  }

  lemma StoppedKeepsPrimary(before: Nodes, after: Nodes, p: NodeId, targets: seq<NodeId>, done: nat,
                            space: SpaceName, key: Bytes, write: Write)
    requires p in before && p !in targets && StoppedAfter(before, after, targets, done, space, key, write)
    ensures p in after && after[p] == before[p]
  {
    assert p !in targets[..done] && p !in targets[..done + 1];
  }

  /** Known before the operation: none of its outcomes is half applied. */
  ghost predicate NeverHalfApplied(before: Nodes, hash: Bytes -> u64, o: Operation) {
    forall after: Nodes, reply: Result<Response> | Step(before, after, hash, Answered(o, reply)) ::
      !HalfApplied(before, after, hash, Answered(o, reply))
  }

  lemma NeverHalfAppliedExactly(before: Nodes, catalog: map<SpaceName, Space>, layout: seq<NodeId>, hash: Bytes -> u64, o: Operation)
    requires CommonView(before, catalog, layout)
    ensures NeverHalfApplied(before, hash, o) <==> LeavesNoLocalTrace(before, hash, o)
  {
    hide ApplyWrite, AfterWrite, WriteFailure, Step, Confirmed, WriteOf;
    if LeavesNoLocalTrace(before, hash, o) {
      forall after: Nodes, reply: Result<Response> | Step(before, after, hash, Answered(o, reply))
        ensures !HalfApplied(before, after, hash, Answered(o, reply))
      {
        if after != before { OutcomeNotHalfApplied(before, after, catalog, layout, hash, o, reply); }
      }
    } else {
      var p :| WouldWrite(before, p, hash, o)
               && Refused(before[p], o.space, o.key, WriteOf(before[p].catalog[o.space], o.key, o.op))
               && !Idle(before[p], o.space, o.key, WriteOf(before[p].catalog[o.space], o.key, o.op));
      HalfAppliedOutcome(before, p, hash, o);
    }
  }

  lemma OutcomeNotHalfApplied(before: Nodes, after: Nodes, catalog: map<SpaceName, Space>, layout: seq<NodeId>, hash: Bytes -> u64,
                              o: Operation, reply: Result<Response>)
    requires CommonView(before, catalog, layout) && LeavesNoLocalTrace(before, hash, o)
    requires Step(before, after, hash, Answered(o, reply)) && after != before
    ensures !HalfApplied(before, after, hash, Answered(o, reply))
  {
    hide ApplyWrite, AfterWrite, WriteFailure, Step, Confirmed, StoppedAfter;
    var q, replicas, write, done := StepShape(before, after, catalog, layout, hash, Answered(o, reply));
    forall p | RoutesToItself(before, p, o.space, o.key, hash)
      ensures !LocalFailure(before, after, p, o.space, o.key, WriteOf(before[p].catalog[o.space], o.key, o.op))
    {
      assert p == q;
      TracelessAt(before, p, hash, o);
      if LocalFailure(before, after, p, o.space, o.key, write) {
        ChangedLocally(before, after, p, o.space, o.key, write);
      }
    }
  }

  /** A list that would be refused half-way has an outcome in which it was. */
  lemma HalfAppliedOutcome(before: Nodes, p: NodeId, hash: Bytes -> u64, o: Operation)
    requires WouldWrite(before, p, hash, o)
    requires var write := WriteOf(before[p].catalog[o.space], o.key, o.op);
      Refused(before[p], o.space, o.key, write) && !Idle(before[p], o.space, o.key, write)
    ensures exists after: Nodes, reply: Result<Response> ::
      Step(before, after, hash, Answered(o, reply)) && HalfApplied(before, after, hash, Answered(o, reply)) && reply.Err?
  {
    hide AfterWrite, WriteFailure, Confirmed, ApplyWrite;
    var write := WriteOf(before[p].catalog[o.space], o.key, o.op);
    WriteEffect(before[p], o.space, o.key, write);
    var after := before[p := ApplyWrite(before[p], o.space, o.key, write).node];
    var reply: Result<Response> := Err(Other);
    assert RecordAt(after[p], o.space, o.key) != RecordAt(before[p], o.space, o.key);
    var lost: set<NodeId> :| Confirmed(before, p, o.space, o.key, hash, lost);
    assert CarriedOut(before, after, p, lost, hash, o.space, o.key, o.op, reply);
    assert HalfApplied(before, after, hash, Answered(o, reply));
  }

  const ONE_SPACE := Space("s", "k", [], [], SpaceOptions(0, 1, HyperDexDsl))

  /** A cluster of one node with one record, which has the empty key. */
  function OneNode(attributes: Attributes): Node {
    Node([1], 1, [1], map["s" := ONE_SPACE], map["s" := map[[] := Record([], attributes)]])
  }

  function OneNodeCluster(attributes: Attributes): Nodes { map[1 := OneNode(attributes)] }

  /** An instance: a put whose second mutation meets a value that is no number
      fails, yet its first mutation stays in the logical store. */
  lemma HalfAppliedPut(hash: Bytes -> u64)
    ensures
      var before, after := OneNodeCluster(map["b" := Null]), OneNodeCluster(map["b" := Null, "k" := Null]);
      var e := Event("s", [], ClientPut([SetAttribute("k", Null), Numeric("b", Add, 1)]), Err(NonNumeric));
      && CommonView(before, map["s" := ONE_SPACE], [1]) && Step(before, after, hash, e)
      && Logical(before, map["s" := ONE_SPACE], [1], hash, "s", []) == Some(Record([], map["b" := Null]))
      && Logical(after, map["s" := ONE_SPACE], [1], hash, "s", []) == Some(Record([], map["b" := Null, "k" := Null]))
  {
    hide Locate, ApplyWrite, Confirmed, Materialize;
    var whole: Attributes, half: Attributes := map["b" := Null], map["b" := Null, "k" := Null];
    var list := [SetAttribute("k", Null), Numeric("b", Add, 1)];
    var before, after := OneNodeCluster(whole), OneNodeCluster(half);
    LocateWellFormed([1], ONE_SPACE.options, hash([]));
    HalfList(list, whole, half);
    HalfWrite(list, whole, half);
    NoPeers(whole, hash);
    KeyIsSet(list);
    assert before[1 := OneNode(half)] == after;
    var placed := Locate([1], ONE_SPACE.options, hash([]));
    assert placed.Ok? && placed.value.replicas[0] in placed.value.replicas;
    assert LocateKey(before[1], "s", [], hash) == placed;
    assert "k" in half && "k" !in whole && RecordAt(after[1], "s", []) != RecordAt(before[1], "s", []);
    assert CarriedOut(before, after, 1, {}, hash, "s", [], ClientPut(list), Err(NonNumeric));
  }

  lemma HalfList(list: seq<Mutation>, whole: Attributes, half: Attributes)
    requires list == [SetAttribute("k", Null), Numeric("b", Add, 1)]
    requires whole == map["b" := Null] && half == map["b" := Null, "k" := Null]
    ensures ApplyMutations(whole, list) == Applied(half, Some(NonNumeric))
  {
    assert list[1..] == [Numeric("b", Add, 1)];
    assert whole["k" := Null] == half;
    assert ApplyMutations(half, [Numeric("b", Add, 1)]) == Applied(half, Some(NonNumeric));
  }

  lemma HalfWrite(list: seq<Mutation>, whole: Attributes, half: Attributes)
    requires ApplyMutations(whole, list) == Applied(half, Some(NonNumeric))
    ensures ApplyWrite(OneNode(whole), "s", [], PutWrite(list)) == Wrote(OneNode(half), Err(NonNumeric))
  {
    hide ApplyMutations;
    var table: Table := map[[] := Record([], whole)];
    assert PutTable(table, [], list) == map[[] := Record([], half)];
    assert OneNode(whole).storage["s" := map[[] := Record([], half)]] == OneNode(half).storage;
  }

  lemma NoPeers(attributes: Attributes, hash: Bytes -> u64)
    ensures Confirmed(OneNodeCluster(attributes), 1, "s", [], hash, {})
  {
  }

  lemma KeyIsSet(list: seq<Mutation>)
    requires list == [SetAttribute("k", Null), Numeric("b", Add, 1)]
    ensures Materialize(ONE_SPACE, [], list) == list
  {
    assert list[0] in list;
  }

  // -------------------------------------- agreement, known before the operation

  /** Whatever becomes of the operation, all replicas of all keys agree. */
  ghost predicate EveryOutcomeAgrees(before: Nodes, catalog: map<SpaceName, Space>, layout: seq<NodeId>, hash: Bytes -> u64,
                                     o: Operation)
  {
    forall after: Nodes, reply: Result<Response> | Step(before, after, hash, Answered(o, reply)) ::
      AllAgree(after, catalog, layout, hash)
  }

  /** A second replica would take the write and a third may then be missed. */
  ghost predicate CanStopHalfway(nodes: Nodes, p: NodeId, replicas: seq<NodeId>, space: SpaceName) {
    var others := Others(replicas, p);
    |others| >= 2 && others[0] in nodes && Serves(nodes[others[0]], space)
  }

  /** If the operation gets to its primary's store it changes nothing there, or no
      second replica is running, or the primary takes the list and replication
      cannot stop half-way. */
  ghost predicate Harmless(nodes: Nodes, catalog: map<SpaceName, Space>, layout: seq<NodeId>, hash: Bytes -> u64, o: Operation) {
    forall p :: HarmlessFor(nodes, p, catalog, layout, hash, o)
  }

  ghost predicate HarmlessFor(nodes: Nodes, p: NodeId, catalog: map<SpaceName, Space>, layout: seq<NodeId>, hash: Bytes -> u64,
                              o: Operation)
  {
    var placed := Placed(catalog, layout, hash, o.space, o.key);
    WouldWrite(nodes, p, hash, o) && placed.Ok? ==>
      HarmlessAt(nodes, p, placed.value.replicas, o.space, o.key, WriteOf(nodes[p].catalog[o.space], o.key, o.op))
  }

  ghost predicate HarmlessAt(nodes: Nodes, p: NodeId, replicas: seq<NodeId>, space: SpaceName, key: Bytes, write: Write)
    requires p in nodes
  {
    || Idle(nodes[p], space, key, write) || Alone(nodes, replicas, p)
    || (!Refused(nodes[p], space, key, write) && !CanStopHalfway(nodes, p, replicas, space))
  }

  /** Known before the operation: no outcome of it leaves replicas apart exactly
      if it is harmless. */
  lemma EveryOutcomeAgreesExactly(before: Nodes, catalog: map<SpaceName, Space>, layout: seq<NodeId>, hash: Bytes -> u64, o: Operation)
    requires CommonView(before, catalog, layout) && AllAgree(before, catalog, layout, hash)
    ensures EveryOutcomeAgrees(before, catalog, layout, hash, o) <==> Harmless(before, catalog, layout, hash, o)
  {
    hide CommonView, AllAgree, Step, HarmlessFor;
    if Harmless(before, catalog, layout, hash, o) {
      forall after: Nodes, reply: Result<Response> | Step(before, after, hash, Answered(o, reply))
        ensures AllAgree(after, catalog, layout, hash)
      {
        HarmlessIsGentle(before, after, catalog, layout, hash, o, reply);
        StepAgreementExact(before, after, catalog, layout, hash, Answered(o, reply));
      }
    } else {
      var p :| !HarmlessFor(before, p, catalog, layout, hash, o);
      var after, reply := HarmfulOutcome(before, p, catalog, layout, hash, o);
      StepAgreementExact(before, after, catalog, layout, hash, Answered(o, reply));
    }
  }

  lemma HarmlessIsGentle(before: Nodes, after: Nodes, catalog: map<SpaceName, Space>, layout: seq<NodeId>, hash: Bytes -> u64,
                         o: Operation, reply: Result<Response>)
    requires CommonView(before, catalog, layout) && AllAgree(before, catalog, layout, hash)
    requires Harmless(before, catalog, layout, hash, o) && Step(before, after, hash, Answered(o, reply))
    ensures Gentle(before, after, catalog, layout, hash, Answered(o, reply))
  {
    hide ApplyWrite, AfterWrite, WriteFailure, Step, Agree, Confirmed;
    if before != after && reply.Err? {
      var p, replicas, write, done := StepShape(before, after, catalog, layout, hash, Answered(o, reply));
      WriteEffect(before[p], o.space, o.key, write);
      assert Agree(before, replicas, o.space, o.key);
      if LocalFailure(before, after, p, o.space, o.key, write) {
        ChangedLocally(before, after, p, o.space, o.key, write);
        assert HarmlessFor(before, p, catalog, layout, hash, o);
      } else {
        ChangedElsewhere(before, after, p, replicas, done, o.space, o.key, write);
        FirstTook(before, after, Others(replicas, p), done, o.space, o.key, write);
        HarmlessNeverStops(before, p, replicas, catalog, layout, hash, o, write);
      }
    }
  }

  lemma FirstTook(before: Nodes, after: Nodes, targets: seq<NodeId>, done: nat, space: SpaceName, key: Bytes, write: Write)
    requires StoppedAfter(before, after, targets, done, space, key, write) && done > 0
    ensures |targets| >= 2 && targets[0] in before && Serves(before[targets[0]], space)
  {
    hide ApplyWrite;
    assert targets[0] in targets[..done];
    WriteEffect(before[targets[0]], space, key, write);
  }

  lemma HarmlessNeverStops(before: Nodes, p: NodeId, replicas: seq<NodeId>, catalog: map<SpaceName, Space>, layout: seq<NodeId>,
                           hash: Bytes -> u64, o: Operation, write: Write)
    requires Harmless(before, catalog, layout, hash, o) && WouldWrite(before, p, hash, o)
    requires Placed(catalog, layout, hash, o.space, o.key).Ok?
    requires replicas == Placed(catalog, layout, hash, o.space, o.key).value.replicas
    requires write == WriteOf(before[p].catalog[o.space], o.key, o.op)
    ensures CanStopHalfway(before, p, replicas, o.space) ==>
      Idle(before[p], o.space, o.key, write) || Alone(before, replicas, p)
  {
    hide Admitted, Placed, WriteOf;
    assert HarmlessFor(before, p, catalog, layout, hash, o);
  }

  /** A harmful operation has an outcome that is not gentle. */
  lemma HarmfulOutcome(before: Nodes, p: NodeId, catalog: map<SpaceName, Space>, layout: seq<NodeId>, hash: Bytes -> u64, o: Operation)
    returns (after: Nodes, reply: Result<Response>)
    requires CommonView(before, catalog, layout) && AllAgree(before, catalog, layout, hash)
    requires !HarmlessFor(before, p, catalog, layout, hash, o)
    ensures Step(before, after, hash, Answered(o, reply)) && !Gentle(before, after, catalog, layout, hash, Answered(o, reply))
  {
    hide AfterWrite, WriteFailure, Confirmed, ApplyWrite, Step, Agree;
    var replicas, write := Placed(catalog, layout, hash, o.space, o.key).value.replicas, WriteOf(before[p].catalog[o.space], o.key, o.op);
    LocateWellFormed(layout, catalog[o.space].options, hash(o.key));
    assert Placed(catalog, layout, hash, o.space, o.key).value.primary == p;
    if Refused(before[p], o.space, o.key, write) {
      HalfAppliedOutcome(before, p, hash, o);
      after, reply :| Step(before, after, hash, Answered(o, reply)) && HalfApplied(before, after, hash, Answered(o, reply)) && reply.Err?;
    } else {
      assert Agree(before, replicas, o.space, o.key);
      after := StoppedOutcome(before, p, replicas, hash, o, write);
      reply := Err(Other);
    }
  }

  lemma StoppedOutcome(before: Nodes, p: NodeId, replicas: seq<NodeId>, hash: Bytes -> u64, o: Operation, write: Write)
    returns (after: Nodes)
    requires WouldWrite(before, p, hash, o) && p in replicas && Agree(before, replicas, o.space, o.key)
    requires replicas == LocateKey(before[p], o.space, o.key, hash).value.replicas
    requires write == WriteOf(before[p].catalog[o.space], o.key, o.op)
    requires !Refused(before[p], o.space, o.key, write) && !Idle(before[p], o.space, o.key, write)
    requires CanStopHalfway(before, p, replicas, o.space)
    ensures Step(before, after, hash, Answered(o, Err(Other))) && after != before
  {
    hide AfterWrite, WriteFailure, Confirmed, ApplyWrite;
    var others := Others(replicas, p);
    var first := others[0];
    after := WroteOn(before, others[..1], o.space, o.key, write);
    assert first in others && first in others[..1] && RecordAt(before[first], o.space, o.key) == RecordAt(before[p], o.space, o.key);
    WriteEffect(before[p], o.space, o.key, write);
    WriteEffect(before[first], o.space, o.key, write);
    assert AllTook(before, others[..1], o.space, o.key, write);
    assert StoppedAfter(before, after, others, 1, o.space, o.key, write);
    assert RecordAt(after[first], o.space, o.key) != RecordAt(before[first], o.space, o.key);
    var lost: set<NodeId> :| Confirmed(before, p, o.space, o.key, hash, lost);
    assert CarriedOut(before, after, p, lost, hash, o.space, o.key, o.op, Err(Other));
  }

  // ------------------------------------------------------------- over whole runs

  /** The logical store is what the acknowledged writes alone make of it. */
  ghost predicate RefinedAt(states: seq<Nodes>, events: seq<Event>, catalog: map<SpaceName, Space>, layout: seq<NodeId>,
                            hash: Bytes -> u64, n: nat)
    requires |states| == |events| + 1 && n <= |events|
  {
    forall space, key ::
      Logical(states[n], catalog, layout, hash, space, key)
      == Sequential(events[..n], catalog, space, key, Logical(states[0], catalog, layout, hash, space, key))
  }

  ghost predicate RefinedThrough(states: seq<Nodes>, events: seq<Event>, catalog: map<SpaceName, Space>, layout: seq<NodeId>,
                                 hash: Bytes -> u64, n: nat)
    requires |states| == |events| + 1 && n <= |events|
  {
    forall i :: 0 <= i <= n ==> RefinedAt(states, events, catalog, layout, hash, i)
  }

  ghost predicate NothingHalfApplied(states: seq<Nodes>, events: seq<Event>, hash: Bytes -> u64, n: nat)
    requires |states| == |events| + 1 && n <= |events|
  {
    forall i :: 0 <= i < n ==> !HalfApplied(states[i], states[i + 1], hash, events[i])
  }

  /** One more step of a refined run refines exactly if the step does. */
  lemma RefinedOneMore(states: seq<Nodes>, events: seq<Event>, catalog: map<SpaceName, Space>, layout: seq<NodeId>,
                       hash: Bytes -> u64, n: nat)
    requires |states| == |events| + 1 && n < |events| && RefinedAt(states, events, catalog, layout, hash, n)
    ensures RefinedAt(states, events, catalog, layout, hash, n + 1)
      <==> StepRefined(states[n], states[n + 1], catalog, layout, hash, events[n])
  {
    hide Logical, Sequential, Stepped;
    forall space, key
      ensures Sequential(events[..n + 1], catalog, space, key, Logical(states[0], catalog, layout, hash, space, key))
              == Stepped(Logical(states[n], catalog, layout, hash, space, key), catalog, events[n], space, key)
    {
      assert events[..n + 1] == events[..n] + [events[n]];
      SequentialOneMore(events[..n], events[n], catalog, space, key, Logical(states[0], catalog, layout, hash, space, key));
    }
    if RefinedAt(states, events, catalog, layout, hash, n + 1) {
      forall space, key
        ensures Logical(states[n + 1], catalog, layout, hash, space, key)
                == Stepped(Logical(states[n], catalog, layout, hash, space, key), catalog, events[n], space, key)
      {
        assert Logical(states[n + 1], catalog, layout, hash, space, key)
            == Sequential(events[..n + 1], catalog, space, key, Logical(states[0], catalog, layout, hash, space, key));
      }
    }
  }

  /** Over every run, with any messages lost, the cluster refines the sequential
      store after every operation exactly if no operation was half applied. */
  lemma {:induction false} RunRefinesExactly(states: seq<Nodes>, events: seq<Event>, catalog: map<SpaceName, Space>,
                                             layout: seq<NodeId>, hash: Bytes -> u64, n: nat)
    requires Run(states, events, hash) && n <= |events| && CommonView(states[0], catalog, layout)
    ensures CommonView(states[n], catalog, layout)
    ensures RefinedThrough(states, events, catalog, layout, hash, n) <==> NothingHalfApplied(states, events, hash, n)
  {
    hide RefinedAt, StepRefined, HalfApplied, Step, CommonView;
    if n == 0 {
      assert RefinedAt(states, events, catalog, layout, hash, 0) by { RefinedAtStart(states, events, catalog, layout, hash); }
    } else {
      var m := n - 1;
      RunRefinesExactly(states, events, catalog, layout, hash, m);
      assert Step(states[m], states[m + 1], hash, events[m]);
      StepFrame(states[m], states[n], catalog, layout, hash, events[m]);
      StepRefinesExactly(states[m], states[n], catalog, layout, hash, events[m]);
      if RefinedThrough(states, events, catalog, layout, hash, m) {
        RefinedOneMore(states, events, catalog, layout, hash, m);
      }
      assert NothingHalfApplied(states, events, hash, n)
        <==> NothingHalfApplied(states, events, hash, m) && !HalfApplied(states[m], states[m + 1], hash, events[m]);
      assert RefinedThrough(states, events, catalog, layout, hash, n)
        <==> RefinedThrough(states, events, catalog, layout, hash, m) && RefinedAt(states, events, catalog, layout, hash, n);
    }
  }

  lemma RefinedAtStart(states: seq<Nodes>, events: seq<Event>, catalog: map<SpaceName, Space>, layout: seq<NodeId>, hash: Bytes -> u64)
    requires |states| == |events| + 1
    ensures RefinedAt(states, events, catalog, layout, hash, 0)
  {
    assert events[..0] == [];
  }

  predicate Satisfies(record: Option<Record>, checks: seq<Check>) {
    if record.Some? then RecordMatches(record.value, checks) else checks == []
  }

  /** What the sequential store would answer. */
  predicate SequentialReply(record: Option<Record>, op: ClientWrite, reply: Response) {
    match op
    case ClientConditionalPut(checks, _) => reply == if Satisfies(record, checks) then Unit else ConditionNotMet
    case _ => reply == Unit
  }

  /** A step that answers gives the sequential store's answer. */
  lemma StepReplies(before: Nodes, after: Nodes, catalog: map<SpaceName, Space>, layout: seq<NodeId>, hash: Bytes -> u64, e: Event)
    requires CommonView(before, catalog, layout) && Step(before, after, hash, e) && e.reply.Ok?
    ensures SequentialReply(Logical(before, catalog, layout, hash, e.space, e.key), e.op, e.reply.value)
  {
    hide WriteOutcome, Confirmed, Locate;
    var p: NodeId, unreached: set<NodeId> :| CarriedOut(before, after, p, unreached, hash, e.space, e.key, e.op, e.reply);
    assert before[p].catalog == catalog && before[p].layout == layout;
  }

  ghost predicate RightReply(states: seq<Nodes>, events: seq<Event>, catalog: map<SpaceName, Space>, layout: seq<NodeId>,
                             hash: Bytes -> u64, n: nat)
    requires |states| == |events| + 1 && n < |events|
  {
    var e := events[n];
    e.reply.Ok? ==>
      SequentialReply(Sequential(events[..n], catalog, e.space, e.key, Logical(states[0], catalog, layout, hash, e.space, e.key)),
                      e.op, e.reply.value)
  }

  /** As long as nothing was half applied before it, each answer is the
      sequential store's: a conditional put is judged on what the acknowledged
      writes before it made of the record. */
  lemma RunReplies(states: seq<Nodes>, events: seq<Event>, catalog: map<SpaceName, Space>, layout: seq<NodeId>,
                   hash: Bytes -> u64, n: nat)
    requires Run(states, events, hash) && n < |events| && CommonView(states[0], catalog, layout)
    requires NothingHalfApplied(states, events, hash, n)
    ensures RightReply(states, events, catalog, layout, hash, n)
  {
    hide Logical, Sequential, SequentialReply, NothingHalfApplied, CommonView, Step;
    RunRefinesExactly(states, events, catalog, layout, hash, n);
    assert RefinedAt(states, events, catalog, layout, hash, n);
    assert Step(states[n], states[n + 1], hash, events[n]);
    if events[n].reply.Ok? { StepReplies(states[n], states[n + 1], catalog, layout, hash, events[n]); }
  }

  // ------------------------------------------------------ known before the first run

  /** A run that carries out these operations, or the first few of them. */
  ghost predicate RunOf(states: seq<Nodes>, events: seq<Event>, hash: Bytes -> u64, start: Nodes, operations: seq<Operation>) {
    && Run(states, events, hash) && states[0] == start && |events| <= |operations|
    && forall i :: 0 <= i < |events| ==> OperationOf(events[i]) == operations[i]
  }

  /** The run ends in the sequential store's state and gave its answers. */
  ghost predicate Implements(states: seq<Nodes>, events: seq<Event>, catalog: map<SpaceName, Space>, layout: seq<NodeId>, hash: Bytes -> u64)
    requires |states| == |events| + 1
  {
    && RefinedAt(states, events, catalog, layout, hash, |events|)
    && forall i :: 0 <= i < |events| ==> RightReply(states, events, catalog, layout, hash, i)
  }

  ghost predicate EveryRunImplements(start: Nodes, operations: seq<Operation>, catalog: map<SpaceName, Space>, layout: seq<NodeId>,
                                     hash: Bytes -> u64)
  {
    forall states, events | RunOf(states, events, hash, start, operations) :: Implements(states, events, catalog, layout, hash)
  }

  /** In no state that a run can reach would the next operation's list be refused
      by its primary after it changed the record. */
  ghost predicate NoRunLeavesTrace(start: Nodes, operations: seq<Operation>, hash: Bytes -> u64) {
    forall states, events | RunOf(states, events, hash, start, operations) && |events| < |operations| ::
      LeavesNoLocalTrace(states[|events|], hash, operations[|events|])
  }

  lemma PrefixOfRun(states: seq<Nodes>, events: seq<Event>, hash: Bytes -> u64, start: Nodes, operations: seq<Operation>, n: nat)
    requires RunOf(states, events, hash, start, operations) && n <= |events|
    ensures RunOf(states[..n + 1], events[..n], hash, start, operations)
  {
    hide Step;
    forall i | 0 <= i < n ensures Step(states[..n + 1][i], states[..n + 1][i + 1], hash, events[..n][i]) {
      assert Step(states[i], states[i + 1], hash, events[i]);
    }
  }

  lemma ExtendRun(states: seq<Nodes>, events: seq<Event>, hash: Bytes -> u64, start: Nodes, operations: seq<Operation>,
                  after: Nodes, reply: Result<Response>)
    requires RunOf(states, events, hash, start, operations) && |events| < |operations|
    requires Step(states[|events|], after, hash, Answered(operations[|events|], reply))
    ensures RunOf(states + [after], events + [Answered(operations[|events|], reply)], hash, start, operations)
  {
    hide Step;
    var more, later := states + [after], events + [Answered(operations[|events|], reply)];
    forall i | 0 <= i < |later| ensures Step(more[i], more[i + 1], hash, later[i]) {
      if i < |events| { assert Step(states[i], states[i + 1], hash, events[i]); }
    }
  }

  /** Whatever is lost on the way, the cluster implements the sequential store on
      every run of these operations, answers included, exactly if no operation
      ever meets a record on which its primary would refuse its list half-way. */
  lemma EveryRunImplementsExactly(start: Nodes, operations: seq<Operation>, catalog: map<SpaceName, Space>, layout: seq<NodeId>,
                                  hash: Bytes -> u64)
    requires CommonView(start, catalog, layout)
    ensures EveryRunImplements(start, operations, catalog, layout, hash) <==> NoRunLeavesTrace(start, operations, hash)
  {
    hide Step, LeavesNoLocalTrace, CommonView, Implements;
    if NoRunLeavesTrace(start, operations, hash) {
      forall states, events | RunOf(states, events, hash, start, operations)
        ensures Implements(states, events, catalog, layout, hash)
      {
        TracelessImplements(states, events, hash, start, operations, catalog, layout);
      }
    }
    if EveryRunImplements(start, operations, catalog, layout, hash) {
      forall states, events | RunOf(states, events, hash, start, operations) && |events| < |operations|
        ensures LeavesNoLocalTrace(states[|events|], hash, operations[|events|])
      {
        ImplementedIsTraceless(states, events, hash, start, operations, catalog, layout);
      }
    }
  }

  lemma TracelessImplements(states: seq<Nodes>, events: seq<Event>, hash: Bytes -> u64, start: Nodes, operations: seq<Operation>,
                            catalog: map<SpaceName, Space>, layout: seq<NodeId>)
    requires CommonView(start, catalog, layout) && NoRunLeavesTrace(start, operations, hash)
    requires RunOf(states, events, hash, start, operations)
    ensures Implements(states, events, catalog, layout, hash)
  {
    hide LeavesNoLocalTrace, CommonView, HalfApplied, Step, RightReply, RefinedAt, Logical;
    forall i | 0 <= i < |events| ensures !HalfApplied(states[i], states[i + 1], hash, events[i]) {
      PrefixOfRun(states, events, hash, start, operations, i);
      assert LeavesNoLocalTrace(states[..i + 1][i], hash, operations[i]);
      RunRefinesExactly(states, events, catalog, layout, hash, i);
      NeverHalfAppliedExactly(states[i], catalog, layout, hash, operations[i]);
      assert events[i] == Answered(operations[i], events[i].reply);
    }
    RunRefinesExactly(states, events, catalog, layout, hash, |events|);
    forall i | 0 <= i < |events| ensures RightReply(states, events, catalog, layout, hash, i) {
      RunReplies(states, events, catalog, layout, hash, i);
    }
  }

  lemma ImplementedIsTraceless(states: seq<Nodes>, events: seq<Event>, hash: Bytes -> u64, start: Nodes, operations: seq<Operation>,
                               catalog: map<SpaceName, Space>, layout: seq<NodeId>)
    requires CommonView(start, catalog, layout) && EveryRunImplements(start, operations, catalog, layout, hash)
    requires RunOf(states, events, hash, start, operations) && |events| < |operations|
    ensures LeavesNoLocalTrace(states[|events|], hash, operations[|events|])
  {
    hide LeavesNoLocalTrace, CommonView, HalfApplied, Step, RightReply, Logical, StepRefined;
    var n := |events|;
    var o := operations[n];
    RunRefinesExactly(states, events, catalog, layout, hash, n);
    forall after: Nodes, reply: Result<Response> | Step(states[n], after, hash, Answered(o, reply))
      ensures !HalfApplied(states[n], after, hash, Answered(o, reply))
    {
      var more, later := states + [after], events + [Answered(o, reply)];
      ExtendRun(states, events, hash, start, operations, after, reply);
      assert Implements(states, events, catalog, layout, hash) && Implements(more, later, catalog, layout, hash);
      assert later[..n] == events[..n] && more[n] == states[n];
      RefinedOneMore(more, later, catalog, layout, hash, n);
      StepRefinesExactly(states[n], after, catalog, layout, hash, Answered(o, reply));
    }
    NeverHalfAppliedExactly(states[n], catalog, layout, hash, o);
  }

  predicate OnlyAssigns(op: ClientWrite) {
    match op
    case ClientDelete => true
    case ClientPut(mutations) => forall m :: m in mutations ==> m.SetAttribute?
    case ClientConditionalPut(_, mutations) => forall m :: m in mutations ==> m.SetAttribute?
  }

  lemma {:induction false} AssignmentsTake(attributes: Attributes, mutations: seq<Mutation>)
    requires forall m :: m in mutations ==> m.SetAttribute?
    ensures ApplyMutations(attributes, mutations).failure.None?
    decreases |mutations|
  {
    if mutations != [] {
      assert mutations[0] in mutations;
      AssignmentsTake(ApplyMutation(attributes, mutations[0]).value, mutations[1..]);
    }
  }

  /** Operations that only assign and delete never meet such a record. */
  lemma AssignmentsAreImplemented(start: Nodes, operations: seq<Operation>, catalog: map<SpaceName, Space>, layout: seq<NodeId>,
                                  hash: Bytes -> u64)
    requires CommonView(start, catalog, layout) && forall o :: o in operations ==> OnlyAssigns(o.op)
    ensures EveryRunImplements(start, operations, catalog, layout, hash)
  {
    hide CommonView, EveryRunImplements, WouldWrite, Run;
    forall states: seq<Nodes>, events: seq<Event>
      | RunOf(states, events, hash, start, operations) && |events| < |operations| && |states| == |events| + 1
      ensures LeavesNoLocalTrace(states[|events|], hash, operations[|events|])
    {
      var nodes, o := states[|events|], operations[|events|];
      assert o in operations;
      forall p | WouldWrite(nodes, p, hash, o) && p in nodes && o.space in nodes[p].catalog
        ensures !Refused(nodes[p], o.space, o.key, WriteOf(nodes[p].catalog[o.space], o.key, o.op))
      {
        AssignmentTakes(RecordAt(nodes[p], o.space, o.key), nodes[p].catalog[o.space], o.key, o.op);
      }
      WouldWriteIsThere(nodes, hash, o);
    }
    RunsHaveTheirStates(start, operations, hash);
    EveryRunImplementsExactly(start, operations, catalog, layout, hash);
  }

  lemma WouldWriteIsThere(nodes: Nodes, hash: Bytes -> u64, o: Operation)
    ensures forall p :: WouldWrite(nodes, p, hash, o) ==> p in nodes && o.space in nodes[p].catalog
  {
  }

  lemma RunsHaveTheirStates(start: Nodes, operations: seq<Operation>, hash: Bytes -> u64)
    ensures forall states, events :: RunOf(states, events, hash, start, operations) ==> |states| == |events| + 1
  {
  }

  lemma AssignmentTakes(record: Option<Record>, space: Space, key: Bytes, op: ClientWrite)
    requires OnlyAssigns(op)
    ensures WriteFailure(record, key, WriteOf(space, key, op)).None?
  {
    match op
    case ClientDelete =>
    case ClientPut(mutations) =>
      AssignmentsTake((if record.Some? then record.value else NewRecord(key)).attributes, Materialize(space, key, mutations));
    case ClientConditionalPut(_, mutations) =>
      AssignmentsTake((if record.Some? then record.value else NewRecord(key)).attributes, Materialize(space, key, mutations));
  }

  /** After a run that kept the replicas in agreement a read that any replica
      answers returns the logical store's record: the sequential store's, as long
      as nothing was half applied. */
  lemma ReadSeesSequentialStore(states: seq<Nodes>, events: seq<Event>, catalog: map<SpaceName, Space>, layout: seq<NodeId>,
                                hash: Bytes -> u64, n: nat, space: SpaceName, key: Bytes,
                                answered: set<NodeId>, record: Option<Record>)
    requires Run(states, events, hash) && n <= |events| && CommonView(states[0], catalog, layout)
    requires AllAgree(states[0], catalog, layout, hash) && GentleRun(states, events, catalog, layout, hash, n)
    requires Placed(catalog, layout, hash, space, key).Ok?
    requires Placed(catalog, layout, hash, space, key).value.primary in states[n]
    requires FirstAnswer(states[n], Placed(catalog, layout, hash, space, key).value.replicas, answered, space, key, record)
    ensures record == Logical(states[n], catalog, layout, hash, space, key)
    ensures NothingHalfApplied(states, events, hash, n) ==>
      record == Sequential(events[..n], catalog, space, key, Logical(states[0], catalog, layout, hash, space, key))
  {
    hide NothingHalfApplied, Step, Locate, RecordAt;
    RunsKeepAgreement(states, events, catalog, layout, hash, n);
    RunRefinesExactly(states, events, catalog, layout, hash, n);
    LocateWellFormed(layout, catalog[space].options, hash(key));
    var placed := Placed(catalog, layout, hash, space, key).value;
    var m :| m in answered && m in states[n] && RecordAt(states[n][m], space, key) == record;
    assert placed.primary in placed.replicas;
    assert Agree(states[n], placed.replicas, space, key);
    if NothingHalfApplied(states, events, hash, n) { assert RefinedAt(states, events, catalog, layout, hash, n); }
  }
}
