/** One daemon: its view of the cluster, its data plane, and how it answers the
    messages other daemons send it (crates/data-plane, crates/server). */
module Node {
  import opened Base
  import opened DataModel
  import opened Engine
  import opened Routing

  datatype Node = Node(
    members: seq<NodeId>,              // cluster configuration, in its order
    replicaFactor: nat,                // cluster configuration
    layout: seq<NodeId>,               // nodes registered in the catalog
    catalog: map<SpaceName, Space>,
    storage: Storage)

  type Nodes = map<NodeId, Node>

  /** The two ways one record is written on one node. */
  datatype Write = PutWrite(mutations: seq<Mutation>) | DeleteWrite

  datatype Request =
    | Get(space: SpaceName, key: Bytes)
    | Search(space: SpaceName, checks: seq<Check>)
    | ValidatePrimary(space: SpaceName, key: Bytes, expectedPrimary: NodeId, expectedClusterSize: nat)
    | Replicated(space: SpaceName, key: Bytes, write: Write)
    | ReplicatedDeleteGroup(space: SpaceName, checks: seq<Check>)

  datatype Response =
    | Unit
    | OneRecord(record: Option<Record>)
    | SearchResult(records: map<Bytes, Record>)   // filed by key, as every receiver files them
    | Deleted(count: nat)
    | ConditionNotMet

  datatype Wrote = Wrote(node: Node, result: Result<WriteResult>)
  datatype Handled = Handled(node: Node, reply: Result<Response>)

  function LocateKey(node: Node, space: SpaceName, key: Bytes, hash: Bytes -> u64): Result<PlacementDecision> {
    if space !in node.catalog then Err(SchemaGap)
    else Locate(node.layout, node.catalog[space].options, hash(key))
  }

  /** What the data plane checks before it reads or writes one record: it routes
      the key, although it does not use the outcome. */
  function DataPlaneGate(node: Node, space: SpaceName): Option<Error> {
    if space !in node.catalog then Some(SchemaGap)
    else if node.layout == [] then Some(Other)
    else None
  }

  function RecordAt(node: Node, space: SpaceName, key: Bytes): Option<Record> {
    if space in node.storage && key in node.storage[space] then Some(node.storage[space][key]) else None
  }

  function LocalGet(node: Node, space: SpaceName, key: Bytes): Result<Option<Record>> {
    var gate := DataPlaneGate(node, space);
    if gate.Some? then Err(gate.value) else Ok(RecordAt(node, space, key))
  }

  /** Operations on a whole space are not routed: they need the space only. */
  predicate Searchable(node: Node, space: SpaceName) { space in node.catalog && space in node.storage }

  function LocalSearch(node: Node, space: SpaceName, checks: seq<Check>): Result<map<Bytes, Record>> {
    if !Searchable(node, space) then Err(SchemaGap) else Ok(Selection(node.storage[space], checks))
  }

  function TableOf(node: Node, space: SpaceName): Table {
    if space in node.storage then node.storage[space] else map[]
  }

  /** The records a node holds that match. */
  function MatchingRecords(node: Node, space: SpaceName, checks: seq<Check>): map<Bytes, Record> {
    Selection(TableOf(node, space), checks)
  }

  function WithTable(node: Node, space: SpaceName, table: Table): Node {
    node.(storage := node.storage[space := table])
  }

  function ApplyWrite(node: Node, space: SpaceName, key: Bytes, write: Write): Wrote {
    var gate := DataPlaneGate(node, space);
    if gate.Some? then Wrote(node, Err(gate.value))
    else if space !in node.storage then Wrote(node, Err(SchemaGap))
    else
      var table := node.storage[space];
      match write
      case PutWrite(mutations) =>
        var failure := PutFailure(table, key, mutations);
        Wrote(WithTable(node, space, PutTable(table, key, mutations)),
              if failure.Some? then Err(failure.value) else Ok(Written))
      case DeleteWrite =>
        Wrote(WithTable(node, space, table - {key}), Ok(if key in table then Written else Missing))
  }

  function LocalDeleteMatching(node: Node, space: SpaceName, checks: seq<Check>): Handled {
    if !Searchable(node, space) then Handled(node, Err(SchemaGap))
    else
      var table := node.storage[space];
      Handled(WithTable(node, space, RemoveMatching(table, checks)), Ok(Deleted(|Matching(table, checks)|)))
  }

  /** A peer accepts a claim to be primary when it knows of fewer nodes than
      the claimant or routes the key to the claimant itself. */
  function JudgeClaim(node: Node, space: SpaceName, key: Bytes, claimant: NodeId, size: nat, hash: Bytes -> u64)
    : Result<Response>
  {
    if |node.members| < size then Ok(Unit)
    else
      var decision :- LocateKey(node, space, key, hash);
      if decision.primary == claimant then Ok(Unit) else Ok(ConditionNotMet)
  }

  function Handle(node: Node, request: Request, hash: Bytes -> u64): Handled {
    match request
    case Get(space, key) =>
      var found := LocalGet(node, space, key);
      Handled(node, if found.Ok? then Ok(OneRecord(found.value)) else Err(found.error))
    case Search(space, checks) =>
      var found := LocalSearch(node, space, checks);
      Handled(node, if found.Ok? then Ok(SearchResult(found.value)) else Err(found.error))
    case ValidatePrimary(space, key, claimant, size) =>
      Handled(node, JudgeClaim(node, space, key, claimant, size, hash))
    case Replicated(space, key, write) =>
      var wrote := ApplyWrite(node, space, key, write);
      Handled(wrote.node, if wrote.result.Err? then Err(wrote.result.error)
                          else if wrote.result.value.ConditionFailed? then Ok(ConditionNotMet)
                          else Ok(Unit))
    case ReplicatedDeleteGroup(space, checks) =>
      LocalDeleteMatching(node, space, checks)
  }

  // -------------------------------------------------------------- one record

  predicate KeyedNode(node: Node) { KeyedStorage(node.storage) }

  predicate KeyedNodes(nodes: Nodes) {
    forall n :: n in nodes ==> KeyedNode(nodes[n])
  }

  /** The record a write turns `before` into. */
  function AfterWrite(before: Option<Record>, key: Bytes, write: Write): Option<Record> {
    match write
    case PutWrite(mutations) =>
      var record := if before.Some? then before.value else NewRecord(key);
      Some(record.(attributes := ApplyMutations(record.attributes, mutations).attributes))
    case DeleteWrite => None
  }

  function WriteFailure(before: Option<Record>, key: Bytes, write: Write): Option<Error> {
    match write
    case PutWrite(mutations) =>
      ApplyMutations((if before.Some? then before.value else NewRecord(key)).attributes, mutations).failure
    case DeleteWrite => None
  }

  /** The data plane lets writes to the space through. */
  predicate Serves(node: Node, space: SpaceName) {
    DataPlaneGate(node, space).None? && space in node.storage
  }

  /** A write touches its own record and nothing else on the node, and what it
      does depends on that record alone. */
  lemma WriteEffect(node: Node, space: SpaceName, key: Bytes, write: Write)
    ensures var w := ApplyWrite(node, space, key, write);
      && w.node.(storage := node.storage) == node
      && (forall s, k :: (s, k) != (space, key) ==> RecordAt(w.node, s, k) == RecordAt(node, s, k))
      && w.node.storage.Keys == node.storage.Keys
      && (KeyedNode(node) ==> KeyedNode(w.node))
      && (!Serves(node, space) ==> w.node == node && w.result.Err?)
      && (Serves(node, space) ==>
          && RecordAt(w.node, space, key) == AfterWrite(RecordAt(node, space, key), key, write)
          && (w.result.Err? <==> WriteFailure(RecordAt(node, space, key), key, write).Some?))
  {
  }

  /** Two node states that agree on every record and on everything beside the
      records are the same state. */
  lemma SameRecords(a: Node, b: Node)
    requires a.(storage := b.storage) == b && a.storage.Keys == b.storage.Keys
    requires forall s, k :: RecordAt(a, s, k) == RecordAt(b, s, k)
    ensures a == b
  {
    forall s | s in a.storage ensures a.storage[s] == b.storage[s] {
      forall k ensures k in a.storage[s] <==> k in b.storage[s] {
        assert RecordAt(a, s, k) == RecordAt(b, s, k);
      }
      forall k | k in a.storage[s] ensures a.storage[s][k] == b.storage[s][k] {
        assert RecordAt(a, s, k) == RecordAt(b, s, k);
      }
    }
    assert a.storage == b.storage;
  }
}
