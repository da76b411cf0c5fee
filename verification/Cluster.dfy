/** The daemons of a cluster joined by a transport that may lose any message,
    and the primary's write path (crates/server, `ClusterRuntime`). */
module Cluster {
  import opened Base
  import opened DataModel
  import opened Engine
  import opened Node
  import opened RecordEquality
  import opened Routing

  /** The nodes that hold a copy of the key besides the primary, in order. */
  function Others(replicas: seq<NodeId>, p: NodeId): (others: seq<NodeId>)
    ensures forall n :: n in others <==> n in replicas && n != p
    ensures Distinct(replicas) ==> Distinct(others)
  {
    if replicas == [] then []
    else if replicas[0] == p then Others(replicas[1..], p)
    else
      var rest := Others(replicas[1..], p);
      assert Distinct(replicas) ==> replicas[0] !in rest;
      [replicas[0]] + rest
  }

  /** Where the loop over all replicas stands in the list of the others. */
  lemma {:induction false} OthersAt(replicas: seq<NodeId>, i: nat, p: NodeId)
    requires i < |replicas|
    ensures var all, sofar := Others(replicas, p), Others(replicas[..i], p);
      && |sofar| <= |all| && all[..|sofar|] == sofar
      && (replicas[i] == p ==> Others(replicas[..i + 1], p) == sofar)
      && (replicas[i] != p ==>
          && |sofar| < |all| && all[|sofar|] == replicas[i]
          && all[..|sofar| + 1] == sofar + [replicas[i]] == Others(replicas[..i + 1], p))
  {
    if i == 0 {
      assert replicas[..1] == [replicas[0]];
      assert Others([], p) == [];
    } else {
      assert replicas[..i][1..] == replicas[1..][..i - 1];
      assert replicas[..i + 1][1..] == replicas[1..][..i];
      OthersAt(replicas[1..], i - 1, p);
    }
  }

  /** The cluster after the write has been applied on each of `targets`. */
  function WroteOn(nodes: Nodes, targets: seq<NodeId>, space: SpaceName, key: Bytes, write: Write): Nodes {
    map n | n in nodes :: if n in targets then ApplyWrite(nodes[n], space, key, write).node else nodes[n]
  }

  lemma WroteOnOneMore(nodes: Nodes, targets: seq<NodeId>, n: NodeId, space: SpaceName, key: Bytes, write: Write)
    requires n !in targets
    ensures n in nodes ==>
      && WroteOn(nodes, targets, space, key, write)[n] == nodes[n]
      && WroteOn(nodes, targets, space, key, write)[n := ApplyWrite(nodes[n], space, key, write).node]
         == WroteOn(nodes, targets + [n], space, key, write)
  {
  }

  ghost predicate AllTook(nodes: Nodes, targets: seq<NodeId>, space: SpaceName, key: Bytes, write: Write) {
    forall n :: n in targets ==> n in nodes && ApplyWrite(nodes[n], space, key, write).result.Ok?
  }

  /** A replication that stopped: the first `done` targets took the write, and
      at most one more was reached, where the write was refused. */
  ghost predicate StoppedAfter(before: Nodes, after: Nodes, targets: seq<NodeId>, done: nat,
                               space: SpaceName, key: Bytes, write: Write)
  {
    && done < |targets|
    && AllTook(before, targets[..done], space, key, write)
    && (|| after == WroteOn(before, targets[..done], space, key, write)
        || (&& targets[done] in before
            && ApplyWrite(before[targets[done]], space, key, write).result.Err?
            && after == WroteOn(before, targets[..done + 1], space, key, write)))
  }

  /** Everything a write that reached its primary `p` can have done. */
  ghost predicate WriteOutcome(before: Nodes, after: Nodes, p: NodeId, replicas: seq<NodeId>,
                               space: SpaceName, key: Bytes, write: Write, reply: Result<Response>)
    requires p in before
  {
    match reply
    case Ok(Unit) =>
      AllTook(before, replicas, space, key, write) && after == WroteOn(before, replicas, space, key, write)
    case Ok(_) =>
      reply.value.ConditionNotMet? && after == before
    case Err(_) =>
      || after == before
      || LocalFailure(before, after, p, space, key, write)
      || (ApplyWrite(before[p], space, key, write).result.Ok?
          && exists done: nat :: StoppedAfter(before, after, Others(replicas, p), done, space, key, write))
  }

  /** The primary's own engine refused the mutation list part-way. */
  ghost predicate LocalFailure(before: Nodes, after: Nodes, p: NodeId, space: SpaceName, key: Bytes, write: Write)
    requires p in before
  {
    ApplyWrite(before[p], space, key, write).result.Err?
    && after == before[p := ApplyWrite(before[p], space, key, write).node]
  }

  function Materialize(space: Space, key: Bytes, mutations: seq<Mutation>): seq<Mutation> {
    if exists m :: m in mutations && m.SetAttribute? && m.attribute == space.keyAttribute then mutations
    else [SetAttribute(space.keyAttribute, Blob(key))] + mutations
  }

  /** What a peer that was reached must have answered for the claim to stand. */
  ghost predicate Tolerated(reply: Result<Response>) {
    reply == Ok(Unit) || reply == Err(SchemaGap) || reply == Err(Unavailable)
  }

  /** `p` counts as primary: no peer it reached refused the claim, and if it
      failed to reach some peer another one accepted. */
  ghost predicate Confirmed(nodes: Nodes, p: NodeId, space: SpaceName, key: Bytes, hash: Bytes -> u64, lost: set<NodeId>)
    requires p in nodes
  {
    var request := ValidatePrimary(space, key, p, |nodes[p].members|);
    && (forall n :: n in nodes[p].members && n != p && n !in lost ==>
          n in nodes && Tolerated(Handle(nodes[n], request, hash).reply))
    && (lost != {} ==>
          exists n :: n in nodes[p].members && n != p && n in nodes && Handle(nodes[n], request, hash).reply == Ok(Unit))
  }

  /** No peer would refuse the claim: with no message lost, `p` is confirmed. */
  ghost predicate Welcome(nodes: Nodes, p: NodeId, space: SpaceName, key: Bytes, hash: Bytes -> u64)
    requires p in nodes
  {
    forall n :: n in nodes[p].members && n != p ==>
      n in nodes && Tolerated(Handle(nodes[n], ValidatePrimary(space, key, p, |nodes[p].members|), hash).reply)
  }

  lemma ClaimsAreAnswered(node: Node, space: SpaceName, key: Bytes, p: NodeId, size: nat, hash: Bytes -> u64)
    ensures Handle(node, ValidatePrimary(space, key, p, size), hash).reply != Err(Unavailable)
  {
    hide ReplicaSets, ReplicaCount;
  }

  /** Every replica would answer a read, all of them alike. */
  ghost predicate Readable(nodes: Nodes, replicas: seq<NodeId>, space: SpaceName, key: Bytes) {
    replicas != [] && forall n :: n in replicas ==>
      n in nodes && DataPlaneGate(nodes[n], space).None?
      && replicas[0] in nodes && SameFound(RecordAt(nodes[replicas[0]], space, key), RecordAt(nodes[n], space, key))
  }

  datatype ClientWrite =
    | ClientPut(mutations: seq<Mutation>)
    | ClientConditionalPut(checks: seq<Check>, mutations: seq<Mutation>)
    | ClientDelete

  /** The write a client's request becomes once the primary has put the key
      attribute into it. */
  function WriteOf(space: Space, key: Bytes, op: ClientWrite): Write {
    match op
    case ClientPut(mutations) => PutWrite(Materialize(space, key, mutations))
    case ClientConditionalPut(_, mutations) => PutWrite(Materialize(space, key, mutations))
    case ClientDelete => DeleteWrite
  }

  predicate DistinctLayouts(nodes: Nodes) {
    forall n :: n in nodes ==> Distinct(nodes[n].layout)
  }

  /** `p` is the primary of the key by its own view. */
  predicate RoutesToItself(nodes: Nodes, p: NodeId, space: SpaceName, key: Bytes, hash: Bytes -> u64) {
    p in nodes
    && var located := LocateKey(nodes[p], space, key, hash); located.Ok? && located.value.primary == p
  }

  /** Only a conditional put can be told that its condition is not met, and it
      is told so exactly when the primary's own record fails the checks. */
  ghost predicate RightAnswer(nodes: Nodes, p: NodeId, space: SpaceName, key: Bytes, op: ClientWrite, reply: Result<Response>)
    requires p in nodes
  {
    reply.Ok? ==>
      match op
      case ClientConditionalPut(checks, _) =>
        space in nodes[p].storage
        && reply == Ok(if ConditionHolds(nodes[p].storage[space], key, checks) then Unit else ConditionNotMet)
      case _ => reply == Ok(Unit)
  }

  /** A conditional put touches the primary's store only if its checks hold on the
      primary's own record. */
  predicate MayWrite(node: Node, space: SpaceName, key: Bytes, op: ClientWrite) {
    op.ClientConditionalPut? ==> space in node.storage && ConditionHolds(node.storage[space], key, op.checks)
  }

  /** A client's write as its primary `p` carried it out, once its peers, except
      the unreached ones, had let it. */
  ghost predicate CarriedOut(before: Nodes, after: Nodes, p: NodeId, unreached: set<NodeId>, hash: Bytes -> u64,
                             space: SpaceName, key: Bytes, op: ClientWrite, reply: Result<Response>)
  {
    && RoutesToItself(before, p, space, key, hash)
    && Confirmed(before, p, space, key, hash, unreached)
    && WriteOutcome(before, after, p, LocateKey(before[p], space, key, hash).value.replicas, space, key,
                    WriteOf(before[p].catalog[space], key, op), reply)
    && RightAnswer(before, p, space, key, op, reply)
    && (after != before ==> MayWrite(before[p], space, key, op))
  }

  /** One client write on the whole cluster: refused with no effect, or carried
      out by a node that is primary by its own view and by its peers'. */
  ghost predicate ClientStep(before: Nodes, after: Nodes, hash: Bytes -> u64, space: SpaceName, key: Bytes,
                             op: ClientWrite, reply: Result<Response>)
  {
    || (after == before && reply.Err?)
    || exists p: NodeId, unreached: set<NodeId> :: CarriedOut(before, after, p, unreached, hash, space, key, op, reply)
  }

  /** Nothing stands in the way of a client's write: the daemon it is sent to
      knows the primary, the primary's peers accept it, and all replicas can
      answer a read and take the write. */
  ghost predicate Unhindered(nodes: Nodes, entry: NodeId, hash: Bytes -> u64, space: SpaceName, key: Bytes, op: ClientWrite)
    requires entry in nodes
  {
    var located := LocateKey(nodes[entry], space, key, hash);
    located.Ok?
    && var p := located.value.primary;
       && (p == entry || p in nodes[entry].members)
       && RoutesToItself(nodes, p, space, key, hash)
       && Welcome(nodes, p, space, key, hash)
       && Readable(nodes, LocateKey(nodes[p], space, key, hash).value.replicas, space, key)
       && AllTook(nodes, LocateKey(nodes[p], space, key, hash).value.replicas, space, key, WriteOf(nodes[p].catalog[space], key, op))
  }

  /** Records are filed under their own keys and no node is registered twice. */
  predicate Tidy(nodes: Nodes) { KeyedNodes(nodes) && DistinctLayouts(nodes) }

  lemma WroteOnKeeps(before: Nodes, targets: seq<NodeId>, space: SpaceName, key: Bytes, write: Write)
    requires Tidy(before)
    ensures Tidy(WroteOn(before, targets, space, key, write))
  {
    var after := WroteOn(before, targets, space, key, write);
    forall n | n in after ensures KeyedNode(after[n]) && Distinct(after[n].layout) {
      WriteEffect(before[n], space, key, write);
    }
  }

  lemma WriteOutcomeKeeps(before: Nodes, after: Nodes, p: NodeId, replicas: seq<NodeId>,
                          space: SpaceName, key: Bytes, write: Write, reply: Result<Response>)
    requires p in before && Tidy(before) && WriteOutcome(before, after, p, replicas, space, key, write, reply)
    ensures Tidy(after)
  {
    if after == before {
    } else if reply.Ok? {
      WroteOnKeeps(before, replicas, space, key, write);
    } else if LocalFailure(before, after, p, space, key, write) {
      WriteEffect(before[p], space, key, write);
    } else {
      var done: nat :| StoppedAfter(before, after, Others(replicas, p), done, space, key, write);
      WroteOnKeeps(before, Others(replicas, p)[..done], space, key, write);
      WroteOnKeeps(before, Others(replicas, p)[..done + 1], space, key, write);
    }
  }

  lemma ClientStepKeeps(before: Nodes, after: Nodes, hash: Bytes -> u64, space: SpaceName, key: Bytes,
                        op: ClientWrite, reply: Result<Response>)
    requires Tidy(before) && ClientStep(before, after, hash, space, key, op, reply)
    ensures Tidy(after)
  {
    if !(after == before && reply.Err?) {
      var p: NodeId, unreached: set<NodeId> :| CarriedOut(before, after, p, unreached, hash, space, key, op, reply);
      WriteOutcomeKeeps(before, after, p, LocateKey(before[p], space, key, hash).value.replicas, space, key,
                        WriteOf(before[p].catalog[space], key, op), reply);
    }
  }

  ghost predicate OneRecordDiffers(a: Node, b: Node, space: SpaceName, key: Bytes) {
    && a.(storage := b.storage) == b && a.storage.Keys == b.storage.Keys
    && forall s, k :: (s, k) != (space, key) ==> RecordAt(a, s, k) == RecordAt(b, s, k)
  }

  /** The mutations that rebuild a record from nothing, in any attribute order. */
  method RestoreMutations(record: Record) returns (mutations: seq<Mutation>)
    ensures ApplyMutations(map[], mutations) == Applied(record.attributes, None)
  {
    mutations := [];
    var remaining := record.attributes.Keys;
    while remaining != {}
      invariant remaining <= record.attributes.Keys
      invariant ApplyMutations(map[], mutations) == Applied(record.attributes - remaining, None)
    {
      var name :| name in remaining;
      var set_ := SetAttribute(name, record.attributes[name]);
      ApplyMutationsConcat(map[], mutations, [set_]);
      assert [set_][1..] == [];
      assert (record.attributes - remaining)[name := record.attributes[name]] == record.attributes - (remaining - {name});
      mutations := mutations + [set_];
      remaining := remaining - {name};
    }
    assert record.attributes - {} == record.attributes;
  }

  lemma AllReplicasTook(before: Nodes, written: Nodes, after: Nodes, p: NodeId, replicas: seq<NodeId>,
                        space: SpaceName, key: Bytes, write: Write)
    requires p in before && p in replicas && ApplyWrite(before[p], space, key, write).result.Ok?
    requires written == before[p := ApplyWrite(before[p], space, key, write).node]
    requires AllTook(written, Others(replicas, p), space, key, write)
    requires after == WroteOn(written, Others(replicas, p), space, key, write)
    ensures AllTook(before, replicas, space, key, write) && after == WroteOn(before, replicas, space, key, write)
  {
    forall n | n in replicas ensures n in before && ApplyWrite(before[n], space, key, write).result.Ok? {
      if n != p { assert n in Others(replicas, p); }
    }
  }

  lemma WroteBesidePrimary(before: Nodes, written: Nodes, p: NodeId, x: Node, targets: seq<NodeId>,
                           space: SpaceName, key: Bytes, write: Write)
    requires p in before && p !in targets && written == before[p := x]
    ensures var after := WroteOn(written, targets, space, key, write);
      && after.Keys == before.Keys && after[p] == x
      && after[p := before[p]] == WroteOn(before, targets, space, key, write)
  {
  }

  lemma StoppedBesidePrimary(before: Nodes, written: Nodes, after: Nodes, p: NodeId, x: Node, targets: seq<NodeId>, done: nat,
                             space: SpaceName, key: Bytes, write: Write)
    requires p in before && p !in targets && written == before[p := x]
    requires StoppedAfter(written, after, targets, done, space, key, write)
    ensures after.Keys == before.Keys && after[p] == x
    ensures StoppedAfter(before, after[p := before[p]], targets, done, space, key, write)
  {
    assert forall n :: n in targets ==> n != p;
    WroteBesidePrimary(before, written, p, x, targets[..done], space, key, write);
    WroteBesidePrimary(before, written, p, x, targets[..done + 1], space, key, write);
  }

  lemma RestoredExactly(before: Node, restored: Node, space: SpaceName, key: Bytes, write: Write)
    requires OneRecordDiffers(ApplyWrite(before, space, key, write).node, restored, space, key)
    requires RecordAt(restored, space, key) == RecordAt(before, space, key)
    ensures restored == before
  {
    WriteEffect(before, space, key, write);
    SameRecords(restored, before);
  }

  /** The record of one of the replicas that answered; the others that answered
      hold an equal one. */
  ghost predicate FirstAnswer(nodes: Nodes, replicas: seq<NodeId>, answered: set<NodeId>, space: SpaceName, key: Bytes,
                              record: Option<Record>)
  {
    && (exists n :: n in answered && n in nodes && RecordAt(nodes[n], space, key) == record)
    && forall n :: n in answered ==> n in replicas && n in nodes && SameFound(record, RecordAt(nodes[n], space, key))
  }

  lemma OneMoreReply(nodes: Nodes, asked: seq<NodeId>, answered: set<NodeId>, space: SpaceName, key: Bytes,
                     record: Option<Record>, n: NodeId)
    requires n in nodes
    requires if answered == {} then record == RecordAt(nodes[n], space, key)
             else FirstAnswer(nodes, asked, answered, space, key, record) && SameFound(record, RecordAt(nodes[n], space, key))
    ensures FirstAnswer(nodes, asked + [n], answered + {n}, space, key, record)
  {
    hide SameFound;
    FoundIsReflexive(record);
    if answered == {} { assert n in answered + {n}; }
  }

  lemma NoReply(nodes: Nodes, asked: seq<NodeId>, answered: set<NodeId>, space: SpaceName, key: Bytes,
                record: Option<Record>, n: NodeId)
    requires FirstAnswer(nodes, asked, answered, space, key, record)
    ensures FirstAnswer(nodes, asked + [n], answered, space, key, record)
  {
    hide SameFound;
  }

  lemma ReadableAnswers(nodes: Nodes, replicas: seq<NodeId>, space: SpaceName, key: Bytes, n: NodeId)
    requires n in replicas
    ensures Readable(nodes, replicas, space, key) ==> n in nodes && LocalGet(nodes[n], space, key).Ok? && space in nodes[n].catalog
  {
    hide SameFound;
  }

  lemma NothingReadable(nodes: Nodes, replicas: seq<NodeId>, space: SpaceName, key: Bytes)
    ensures Readable(nodes, replicas, space, key) ==> replicas != []
  {
    hide SameFound;
  }

  lemma ReadableAgrees(nodes: Nodes, replicas: seq<NodeId>, asked: seq<NodeId>, answered: set<NodeId>,
                       space: SpaceName, key: Bytes, agreed: Option<Record>, n: NodeId)
    requires FirstAnswer(nodes, asked, answered, space, key, agreed) && asked <= replicas && n in replicas && n in nodes
    ensures Readable(nodes, replicas, space, key) ==> SameFound(agreed, RecordAt(nodes[n], space, key))
  {
    hide SameFound;
    if Readable(nodes, replicas, space, key) {
      var m :| m in answered && m in nodes && RecordAt(nodes[m], space, key) == agreed;
      assert m in asked && m in replicas;
      FoundIsEuclidean(agreed, RecordAt(nodes[n], space, key), RecordAt(nodes[replicas[0]], space, key));
    }
  }

  lemma PrimaryIsFirst(node: Node, space: SpaceName, key: Bytes, hash: Bytes -> u64)
    requires LocateKey(node, space, key, hash).Ok?
    ensures var located := LocateKey(node, space, key, hash).value;
      located.replicas != [] && located.primary == located.replicas[0]
  {
  }

  class Cluster {
    const hash: Bytes -> u64
    var nodes: Nodes
    ghost var losses: nat   // messages that never reached their receiver

    constructor (hash: Bytes -> u64, nodes: Nodes)
      ensures this.hash == hash && this.nodes == nodes && losses == 0
    {
      this.hash, this.nodes, losses := hash, nodes, 0;
    }

    /** One message and its reply. A message that is lost is not applied. */
    method Forward(from: NodeId, to: NodeId, request: Request) returns (r: Result<Response>, ghost delivered: bool)
      requires from in nodes
      modifies this
      ensures delivered ==>
        && to in old(nodes)
        && nodes == old(nodes)[to := Handle(old(nodes)[to], request, hash).node]
        && r == Handle(old(nodes)[to], request, hash).reply
      ensures !delivered ==> nodes == old(nodes) && (r == Err(Unavailable) || r == Err(Other))
      ensures to !in old(nodes)[from].members ==> r == Err(Other) && !delivered
      ensures losses == old(losses) + if delivered then 0 else 1
    {
      delivered := false;
      if to !in nodes[from].members {
        losses := losses + 1;
        return Err(Other), false;
      }
      if * {
        losses := losses + 1;
        return Err(Unavailable), false;
      } else if * {
        losses := losses + 1;
        return Err(Other), false;
      }
      if to !in nodes {
        losses := losses + 1;
        return Err(Unavailable), false;
      }
      var handled := Handle(nodes[to], request, hash);
      nodes := nodes[to := handled.node];
      r, delivered := handled.reply, true;
    }

    /** The primary asks every other node it knows about before it writes. */
    method ConfirmLocalPrimary(local: NodeId, space: SpaceName, key: Bytes)
      returns (r: Result<()>, ghost lost: set<NodeId>)
      requires local in nodes
      modifies this
      ensures nodes == old(nodes)
      ensures local !in lost
      ensures r.Ok? ==> Confirmed(nodes, local, space, key, hash, lost)
      ensures losses >= old(losses)
      ensures losses == old(losses) && Welcome(nodes, local, space, key, hash) ==> r.Ok?
    {
      var members := nodes[local].members;
      var request := ValidatePrimary(space, key, local, |members|);
      var confirmed, skipped := false, false;
      lost := {};
      for i := 0 to |members|
        invariant nodes == old(nodes)
        invariant local !in lost && forall n :: n in lost ==> n in members[..i]
        invariant forall n :: n in members[..i] && n != local && n !in lost ==>
          n in nodes && Tolerated(Handle(nodes[n], request, hash).reply)
        invariant confirmed ==> exists n :: n in members && n != local && n in nodes && Handle(nodes[n], request, hash).reply == Ok(Unit)
        invariant lost != {} ==> skipped
        invariant losses >= old(losses) && (skipped ==> losses > old(losses))
      {
        var n := members[i];
        if n != local {
          var reply, delivered := Forward(local, n, request);
          if delivered { ClaimsAreAnswered(nodes[n], space, key, local, |members|, hash); }
          if !delivered { lost := lost + {n}; }
          match reply {
            case Ok(Unit) => confirmed := true;
            case Ok(ConditionNotMet) => return Err(Rejected), lost;
            case Ok(_) => return Err(Other), lost;
            case Err(SchemaGap) =>
            case Err(Unavailable) => skipped := true;
            case Err(_) => return reply.PropagateFailure(), lost;
          }
        }
      }
      if skipped && !confirmed {
        return Err(Other), lost;
      }
      r := Ok(());
    }

    /** A read from every replica that can be reached; they must agree. */
    method GetWithFallback(local: NodeId, space: SpaceName, key: Bytes)
      returns (r: Result<Option<Record>>, ghost answered: set<NodeId>)
      requires local in nodes
      modifies this
      ensures nodes == old(nodes)
      ensures r.Ok? ==> answered != {} && LocateKey(nodes[local], space, key, hash).Ok?
      ensures r.Ok? ==> FirstAnswer(nodes, LocateKey(nodes[local], space, key, hash).value.replicas, answered, space, key, r.value)
      ensures r.Ok? && local in LocateKey(nodes[local], space, key, hash).value.replicas ==> local in answered
      ensures r.Ok? && LocateKey(nodes[local], space, key, hash).value.primary == local ==> r.value == RecordAt(nodes[local], space, key)
      ensures losses >= old(losses)
      ensures r.Ok? && losses == old(losses) ==> forall n :: n in LocateKey(nodes[local], space, key, hash).value.replicas ==>
        n in answered || (n in nodes && space !in nodes[n].catalog)
      ensures (
        && losses == old(losses) && LocateKey(nodes[local], space, key, hash).Ok?
        && Readable(nodes, LocateKey(nodes[local], space, key, hash).value.replicas, space, key)) ==> r.Ok?
    {
      var located := LocateKey(nodes[local], space, key, hash);
      if located.Err? {
        return Err(located.error), {};
      }
      PrimaryIsFirst(nodes[local], space, key, hash);
      r, answered := ReadReplicas(local, space, key, located.value.replicas);
    }

    /** The replicas in order; one that is down or lacks the space is passed over. */
    method ReadReplicas(local: NodeId, space: SpaceName, key: Bytes, replicas: seq<NodeId>)
      returns (r: Result<Option<Record>>, ghost answered: set<NodeId>)
      requires local in nodes
      modifies this
      ensures nodes == old(nodes)
      ensures r.Ok? ==> answered != {} && FirstAnswer(nodes, replicas, answered, space, key, r.value)
      ensures r.Ok? && local in replicas ==> local in answered
      ensures r.Ok? && replicas != [] && replicas[0] == local ==> r.value == RecordAt(nodes[local], space, key)
      ensures losses >= old(losses)
      ensures r.Ok? && losses == old(losses) ==> forall n :: n in replicas ==>
        n in answered || (n in nodes && space !in nodes[n].catalog)
      ensures losses == old(losses) && Readable(nodes, replicas, space, key) ==> r.Ok?
    {
      hide FirstAnswer, Readable, SameFound;
      answered := {};
      var agreed: Option<Option<Record>> := None;
      for i := 0 to |replicas|
        invariant nodes == old(nodes)
        invariant agreed.Some? <==> answered != {}
        invariant agreed.Some? ==> FirstAnswer(nodes, replicas[..i], answered, space, key, agreed.value)
        invariant local in replicas[..i] ==> local in answered
        invariant i == 0 ==> agreed.None?
        invariant i > 0 && replicas[0] == local ==> agreed == Some(RecordAt(nodes[local], space, key))
        invariant losses >= old(losses)
        invariant losses == old(losses) ==> forall n :: n in replicas[..i] ==>
          n in answered || (n in nodes && space !in nodes[n].catalog)
      {
        var n := replicas[i];
        assert replicas[..i + 1] == replicas[..i] + [n];
        var found := GetFromReplica(local, n, space, key);
        ReadableAnswers(nodes, replicas, space, key, n);
        match found {
          case Ok(record) =>
            if agreed.Some? {
              if !SameFound(agreed.value, record) {
                ReadableAgrees(nodes, replicas, replicas[..i], answered, space, key, agreed.value, n);
                return Err(Divergence), answered;
              }
            } else {
              agreed := Some(record);
            }
            OneMoreReply(nodes, replicas[..i], answered, space, key, agreed.value, n);
            answered := answered + {n};
          case Err(e) =>
            if n == local || !(e.Unavailable? || e.SchemaGap?) {
              return Err(Other), answered;
            }
            if agreed.Some? { NoReply(nodes, replicas[..i], answered, space, key, agreed.value, n); }
        }
      }
      assert replicas[..|replicas|] == replicas;
      if agreed.None? && replicas != [] { ReadableAnswers(nodes, replicas, space, key, replicas[0]); }
      NothingReadable(nodes, replicas, space, key);
      r := if agreed.Some? then Ok(agreed.value) else Err(Unavailable);
    }

    method GetFromReplica(local: NodeId, n: NodeId, space: SpaceName, key: Bytes) returns (r: Result<Option<Record>>)
      requires local in nodes
      modifies this
      ensures nodes == old(nodes)
      ensures r.Ok? ==> n in nodes && r.value == RecordAt(nodes[n], space, key)
      ensures losses >= old(losses)
      ensures losses == old(losses) ==> n in nodes && r == LocalGet(nodes[n], space, key)
    {
      if n == local {
        return LocalGet(nodes[local], space, key);
      }
      var reply, delivered := Forward(local, n, Get(space, key));
      match reply {
        case Ok(OneRecord(record)) => r := Ok(record);
        case Ok(_) => r := Err(Other);
        case Err(e) => r := Err(e);
      }
    }

    method SearchNode(local: NodeId, n: NodeId, space: SpaceName, checks: seq<Check>)
      returns (r: Result<map<Bytes, Record>>)
      requires local in nodes
      modifies this
      ensures nodes == old(nodes)
      ensures r.Ok? ==> n in nodes && Searchable(nodes[n], space) && r.value == MatchingRecords(nodes[n], space, checks)
      ensures r == Err(SchemaGap) ==> n in nodes && !Searchable(nodes[n], space)
      ensures r != Err(Divergence) && r != Err(RollbackFailed)
      ensures losses >= old(losses)
      ensures losses == old(losses) ==> n in nodes && r == LocalSearch(nodes[n], space, checks)
      ensures r == Err(Unavailable) ==> losses > old(losses)
    {
      if n == local {
        return LocalSearch(nodes[local], space, checks);
      }
      var reply, delivered := Forward(local, n, Search(space, checks));
      match reply {
        case Ok(SearchResult(records)) => r := Ok(records);
        case Ok(_) => r := Err(Other);
        case Err(e) => r := Err(e);
      }
    }

    /** One replicated write and what its reply tells about the receiver. */
    method ForwardWrite(local: NodeId, n: NodeId, space: SpaceName, key: Bytes, write: Write) returns (r: Result<()>)
      requires local in nodes
      modifies this
      ensures r.Ok? ==>
        && n in old(nodes) && ApplyWrite(old(nodes)[n], space, key, write).result.Ok?
        && nodes == old(nodes)[n := ApplyWrite(old(nodes)[n], space, key, write).node]
      ensures r.Err? ==>
        || nodes == old(nodes)
        || (&& n in old(nodes) && ApplyWrite(old(nodes)[n], space, key, write).result.Err?
            && nodes == old(nodes)[n := ApplyWrite(old(nodes)[n], space, key, write).node])
      ensures losses >= old(losses)
      ensures r.Err? && losses == old(losses) ==> n in old(nodes) && ApplyWrite(old(nodes)[n], space, key, write).result.Err?
    {
      var reply, delivered := Forward(local, n, Replicated(space, key, write));
      match reply {
        case Ok(Unit) => r := Ok(());
        case Ok(_) => r := Err(Other);
        case Err(e) => r := Err(e);
      }
    }

    /** The primary sends the write to the other replicas one after another and
        stops at the first that does not take it. */
    method Replicate(local: NodeId, space: SpaceName, key: Bytes, write: Write)
      returns (r: Result<()>, ghost done: nat)
      requires local in nodes && LocateKey(nodes[local], space, key, hash).Ok?
      requires Distinct(LocateKey(nodes[local], space, key, hash).value.replicas)
      modifies this
      ensures var others := Others(LocateKey(old(nodes)[local], space, key, hash).value.replicas, local);
        && (r.Ok? ==> AllTook(old(nodes), others, space, key, write) && nodes == WroteOn(old(nodes), others, space, key, write))
        && (r.Err? ==> StoppedAfter(old(nodes), nodes, others, done, space, key, write))
        && losses >= old(losses)
        && (r.Err? && losses == old(losses) ==> !AllTook(old(nodes), others, space, key, write))
    {
      var decision := LocateKey(nodes[local], space, key, hash).value;
      r, done := ReplicateTo(local, space, key, write, decision.replicas);
    }

    method ReplicateTo(local: NodeId, space: SpaceName, key: Bytes, write: Write, replicas: seq<NodeId>)
      returns (r: Result<()>, ghost done: nat)
      requires local in nodes && Distinct(replicas)
      modifies this
      ensures r.Ok? ==>
        && AllTook(old(nodes), Others(replicas, local), space, key, write)
        && nodes == WroteOn(old(nodes), Others(replicas, local), space, key, write)
      ensures r.Err? ==> StoppedAfter(old(nodes), nodes, Others(replicas, local), done, space, key, write)
      ensures losses >= old(losses)
      ensures r.Err? && losses == old(losses) ==> !AllTook(old(nodes), Others(replicas, local), space, key, write)
    {
      done := 0;
      assert WroteOn(nodes, [], space, key, write) == nodes;
      for i := 0 to |replicas|
        invariant done == |Others(replicas[..i], local)|
        invariant local in nodes
        invariant AllTook(old(nodes), Others(replicas[..i], local), space, key, write)
        invariant nodes == WroteOn(old(nodes), Others(replicas[..i], local), space, key, write)
        invariant losses >= old(losses)
      {
        var n := replicas[i];
        OthersAt(replicas, i, local);
        if n != local {
          ghost var sofar := Others(replicas[..i], local);
          WroteOnOneMore(old(nodes), sofar, n, space, key, write);
          r := ForwardWrite(local, n, space, key, write);
          if r.Err? {
            return;
          }
          done := done + 1;
        }
      }
      assert replicas[..|replicas|] == replicas;
      r := Ok(());
    }

    /** Puts the primary's old record back: delete, then set every attribute. */
    method RestoreLocalRecord(local: NodeId, space: SpaceName, key: Bytes, previous: Option<Record>)
      requires local in nodes && Serves(nodes[local], space)
      requires previous.Some? ==> previous.value.key == key
      modifies this`nodes
      ensures nodes.Keys == old(nodes).Keys
      ensures forall n :: n in nodes && n != local ==> nodes[n] == old(nodes)[n]
      ensures OneRecordDiffers(old(nodes)[local], nodes[local], space, key)
      ensures RecordAt(nodes[local], space, key) == previous
    {
      var node := nodes[local];
      WriteEffect(node, space, key, DeleteWrite);
      var emptied := ApplyWrite(node, space, key, DeleteWrite).node;
      nodes := nodes[local := emptied];
      if previous.Some? {
        var mutations := RestoreMutations(previous.value);
        WriteEffect(emptied, space, key, PutWrite(mutations));
        nodes := nodes[local := ApplyWrite(emptied, space, key, PutWrite(mutations)).node];
      }
    }

    /** Restoring the record a write changed gives back the whole node. */
    method UndoLocalWrite(local: NodeId, space: SpaceName, key: Bytes, previous: Option<Record>,
                          ghost before: Node, ghost write: Write)
      requires local in nodes && Serves(before, space) && KeyedNode(before)
      requires nodes[local] == ApplyWrite(before, space, key, write).node
      requires previous == RecordAt(before, space, key)
      modifies this`nodes
      ensures nodes == old(nodes)[local := before]
    {
      WriteEffect(before, space, key, write);
      RestoreLocalRecord(local, space, key, previous);
      RestoredExactly(before, nodes[local], space, key, write);
    }

    /** The common end of the primary's three write paths: replicate, and undo
        the local write if that fails. */
    method ReplicateOrRestore(local: NodeId, space: SpaceName, key: Bytes, write: Write,
                              previous: Option<Record>, ghost before: Nodes, ghost replicas: seq<NodeId>)
      returns (r: Result<Response>)
      requires local in nodes && local in before && Serves(before[local], space) && KeyedNode(before[local])
      requires LocateKey(nodes[local], space, key, hash).Ok?
      requires replicas == LocateKey(nodes[local], space, key, hash).value.replicas && Distinct(replicas) && local in replicas
      requires ApplyWrite(before[local], space, key, write).result.Ok?
      requires nodes == before[local := ApplyWrite(before[local], space, key, write).node]
      requires previous == RecordAt(before[local], space, key)
      modifies this
      ensures r == Ok(Unit) || r.Err?
      ensures WriteOutcome(before, nodes, local, replicas, space, key, write, r)
      ensures r.Err? ==> nodes[local] == before[local]
      ensures losses >= old(losses)
      ensures losses == old(losses) && AllTook(before, replicas, space, key, write) ==> r == Ok(Unit)
    {
      ghost var written := nodes;
      var replicated, done := Replicate(local, space, key, write);
      if replicated.Ok? {
        AllReplicasTook(before, written, nodes, local, replicas, space, key, write);
        return Ok(Unit);
      }
      StoppedBesidePrimary(before, written, nodes, local, written[local], Others(replicas, local), done, space, key, write);
      UndoLocalWrite(local, space, key, previous, before[local], write);
      r := Err(replicated.error);
    }

    method ApplyPrimaryPut(local: NodeId, space: SpaceName, key: Bytes, mutations: seq<Mutation>,
                           ghost replicas: seq<NodeId>) returns (r: Result<Response>, ghost lost: set<NodeId>)
      requires local in nodes && KeyedNode(nodes[local])
      requires LocateKey(nodes[local], space, key, hash).Ok?
      requires replicas == LocateKey(nodes[local], space, key, hash).value.replicas && Distinct(replicas) && local in replicas
      modifies this
      ensures WriteOutcome(old(nodes), nodes, local, replicas, space, key,
        PutWrite(Materialize(old(nodes)[local].catalog[space], key, mutations)), r)
      ensures r == Ok(Unit) || r.Err?
      ensures r.Ok? || nodes != old(nodes) ==> Confirmed(old(nodes), local, space, key, hash, lost)
      ensures losses >= old(losses)
      ensures (
        && losses == old(losses) && Welcome(old(nodes), local, space, key, hash)
        && AllTook(old(nodes), replicas, space, key, PutWrite(Materialize(old(nodes)[local].catalog[space], key, mutations))))
        ==> r == Ok(Unit)
    {
      var confirmed;
      confirmed, lost := ConfirmLocalPrimary(local, space, key);
      if confirmed.Err? {
        return Err(confirmed.error), lost;
      }
      var write := PutWrite(Materialize(nodes[local].catalog[space], key, mutations));
      var previous := LocalGet(nodes[local], space, key);
      if previous.Err? {
        return Err(previous.error), lost;
      }
      var wrote := ApplyWrite(nodes[local], space, key, write);
      nodes := nodes[local := wrote.node];
      if wrote.result.Err? {
        return Err(wrote.result.error), lost;
      }
      WriteEffect(old(nodes)[local], space, key, write);
      r := ReplicateOrRestore(local, space, key, write, previous.value, old(nodes), replicas);
    }

    /** Reads the replicas first: those that answer must agree, and the record
        they agree on is the one put back if replication fails. */
    method ApplyPrimaryConditionalPut(local: NodeId, space: SpaceName, key: Bytes, checks: seq<Check>, mutations: seq<Mutation>,
                                      ghost replicas: seq<NodeId>)
      returns (r: Result<Response>, ghost answered: set<NodeId>, ghost lost: set<NodeId>)
      requires local in nodes && KeyedNode(nodes[local])
      requires LocateKey(nodes[local], space, key, hash).Ok?
      requires replicas == LocateKey(nodes[local], space, key, hash).value.replicas && Distinct(replicas) && local in replicas
      requires LocateKey(nodes[local], space, key, hash).value.primary == local
      modifies this
      ensures WriteOutcome(old(nodes), nodes, local, replicas, space, key,
        PutWrite(Materialize(old(nodes)[local].catalog[space], key, mutations)), r)
      ensures r.Ok? ==>
        && space in old(nodes)[local].storage && local in answered
        && (r.value.Unit? <==> ConditionHolds(old(nodes)[local].storage[space], key, checks))
        && forall n :: n in answered ==>
          n in old(nodes) && SameFound(RecordAt(old(nodes)[local], space, key), RecordAt(old(nodes)[n], space, key))
      ensures r.Ok? ==> r == Ok(Unit) || r == Ok(ConditionNotMet)
      ensures nodes != old(nodes) ==> MayWrite(old(nodes)[local], space, key, ClientConditionalPut(checks, mutations))
      ensures r.Ok? || nodes != old(nodes) ==> Confirmed(old(nodes), local, space, key, hash, lost)
      ensures losses >= old(losses)
      ensures (
        && losses == old(losses) && Welcome(old(nodes), local, space, key, hash) && Readable(old(nodes), replicas, space, key)
        && AllTook(old(nodes), replicas, space, key, PutWrite(Materialize(old(nodes)[local].catalog[space], key, mutations))))
        ==> r.Ok?
    {
      answered := {};
      var confirmed;
      confirmed, lost := ConfirmLocalPrimary(local, space, key);
      if confirmed.Err? {
        return Err(confirmed.error), answered, lost;
      }
      var write := PutWrite(Materialize(nodes[local].catalog[space], key, mutations));
      var previous;
      previous, answered := GetWithFallback(local, space, key);
      if previous.Err? {
        return Err(Other), answered, lost;
      }
      if DataPlaneGate(nodes[local], space).Some? || space !in nodes[local].storage {
        return Err(SchemaGap), answered, lost;
      }
      if !ConditionHolds(nodes[local].storage[space], key, checks) {
        return Ok(ConditionNotMet), answered, lost;
      }
      var wrote := ApplyWrite(nodes[local], space, key, write);
      nodes := nodes[local := wrote.node];
      if wrote.result.Err? {
        return Err(wrote.result.error), answered, lost;
      }
      WriteEffect(old(nodes)[local], space, key, write);
      r := ReplicateOrRestore(local, space, key, write, previous.value, old(nodes), replicas);
    }

    method ApplyPrimaryDelete(local: NodeId, space: SpaceName, key: Bytes, ghost replicas: seq<NodeId>)
      returns (r: Result<Response>, ghost lost: set<NodeId>)
      requires local in nodes && KeyedNode(nodes[local])
      requires LocateKey(nodes[local], space, key, hash).Ok?
      requires replicas == LocateKey(nodes[local], space, key, hash).value.replicas && Distinct(replicas) && local in replicas
      modifies this
      ensures WriteOutcome(old(nodes), nodes, local, replicas, space, key, DeleteWrite, r)
      ensures r == Ok(Unit) || r.Err?
      ensures r.Ok? || nodes != old(nodes) ==> Confirmed(old(nodes), local, space, key, hash, lost)
      ensures losses >= old(losses)
      ensures (
        && losses == old(losses) && Welcome(old(nodes), local, space, key, hash)
        && AllTook(old(nodes), replicas, space, key, DeleteWrite)) ==> r == Ok(Unit)
    {
      var confirmed;
      confirmed, lost := ConfirmLocalPrimary(local, space, key);
      if confirmed.Err? {
        return Err(confirmed.error), lost;
      }
      var previous := LocalGet(nodes[local], space, key);
      if previous.Err? {
        return Err(previous.error), lost;
      }
      var wrote := ApplyWrite(nodes[local], space, key, DeleteWrite);
      nodes := nodes[local := wrote.node];
      if wrote.result.Err? {
        return Err(wrote.result.error), lost;
      }
      WriteEffect(old(nodes)[local], space, key, DeleteWrite);
      r := ReplicateOrRestore(local, space, key, DeleteWrite, previous.value, old(nodes), replicas);
    }

    /** A client's write, received by any daemon and carried out by the node the
        receiver takes for the primary, if that node agrees. */
    method HandleClientWrite(entry: NodeId, space: SpaceName, key: Bytes, op: ClientWrite) returns (r: Result<Response>)
      requires entry in nodes && Tidy(nodes)
      modifies this
      ensures ClientStep(old(nodes), nodes, hash, space, key, op, r)
      ensures Tidy(nodes)
      ensures losses >= old(losses)
      ensures losses == old(losses) && Unhindered(old(nodes), entry, hash, space, key, op) ==> r.Ok?
    {
      var located := LocateKey(nodes[entry], space, key, hash);
      if located.Err? {
        return Err(located.error);
      }
      var primary := located.value.primary;
      if primary != entry {
        if primary !in nodes[entry].members {
          return Err(Other);
        }
        if * {
          losses := losses + 1;
          return Err(Unavailable);
        } else if * {
          losses := losses + 1;
          return Err(Other);
        }
        if primary !in nodes {
          return Err(Unavailable);
        }
        located := LocateKey(nodes[primary], space, key, hash);
        if located.Err? {
          return Err(located.error);
        }
        if located.value.primary != primary {
          return Err(Other);
        }
      }
      ghost var replicas := located.value.replicas;
      LocateWellFormed(nodes[primary].layout, nodes[primary].catalog[space].options, hash(key));
      assert replicas[0] in replicas;
      assert RoutesToItself(nodes, primary, space, key, hash);
      ghost var lost: set<NodeId>;
      match op {
        case ClientPut(mutations) => r, lost := ApplyPrimaryPut(primary, space, key, mutations, replicas);
        case ClientDelete => r, lost := ApplyPrimaryDelete(primary, space, key, replicas);
        case ClientConditionalPut(checks, mutations) =>
          ghost var answered;
          r, answered, lost := ApplyPrimaryConditionalPut(primary, space, key, checks, mutations, replicas);
      }
      if r.Ok? || nodes != old(nodes) {
        assert CarriedOut(old(nodes), nodes, primary, lost, hash, space, key, op, r);
      }
      ClientStepKeeps(old(nodes), nodes, hash, space, key, op, r);
    }
  }
}
