/** The cluster configuration a runtime holds, how it changes, and how a daemon
    adopts the coordinator's (crates/server, crates/control-plane). */
module ConfigSync {
  import opened Base
  import opened DataModel
  import opened Engine
  import opened Numbering
  import opened Routing

  datatype ClusterNode = ClusterNode(id: NodeId, host: string, controlPort: u16, dataPort: u16)

  datatype ClusterConfig = ClusterConfig(nodes: seq<ClusterNode>, replicas: nat)

  /** What a coordinator hands out. */
  datatype View = View(version: u64, stableThrough: u64, cluster: ClusterConfig, spaces: seq<Space>)

  type Spaces = map<SpaceName, Space>
  type Daemons = map<NodeId, ClusterNode>

  datatype State = State(
    catalog: Spaces,
    daemons: Daemons,          // the catalog's nodes
    cluster: ClusterConfig,
    storage: Storage,
    version: u64,
    stableThrough: u64)

  // ------------------------------------------------------------------- node lists

  /** Collecting nodes into a map: the last of an id wins. */
  function NodeMap(nodes: seq<ClusterNode>): Daemons {
    if nodes == [] then map[] else NodeMap(nodes[..|nodes| - 1])[nodes[|nodes| - 1].id := nodes[|nodes| - 1]]
  }

  predicate UniqueIds(nodes: seq<ClusterNode>) {
    forall i, j :: 0 <= i < j < |nodes| ==> nodes[i].id != nodes[j].id
  }

  /** The map holds these nodes and no others, each under its id. */
  ghost predicate Holds(daemons: Daemons, nodes: seq<ClusterNode>) {
    && (forall n :: n in nodes ==> n.id in daemons && daemons[n.id] == n)
    && (forall id :: id in daemons ==> daemons[id] in nodes && daemons[id].id == id)
  }

  lemma {:induction false} NodeMapHolds(nodes: seq<ClusterNode>)
    requires UniqueIds(nodes)
    ensures Holds(NodeMap(nodes), nodes)
  {
    if nodes != [] {
      var init, last := nodes[..|nodes| - 1], nodes[|nodes| - 1];
      NodeMapHolds(init);
      assert nodes == init + [last];
      LastIsNew(nodes);
      HoldsOneMore(NodeMap(init), init, last);
    }
  }

  lemma LastIsNew(nodes: seq<ClusterNode>)
    requires UniqueIds(nodes) && nodes != []
    ensures forall n :: n in nodes[..|nodes| - 1] ==> n.id != nodes[|nodes| - 1].id
  {
    var init := nodes[..|nodes| - 1];
    forall n | n in init ensures n.id != nodes[|nodes| - 1].id {
      var i :| 0 <= i < |init| && init[i] == n;
      assert nodes[i] == n;
    }
  }

  lemma HoldsOneMore(daemons: Daemons, nodes: seq<ClusterNode>, node: ClusterNode)
    requires Holds(daemons, nodes) && forall n :: n in nodes ==> n.id != node.id
    ensures Holds(daemons[node.id := node], nodes + [node])
  {
    var next := nodes + [node];
    assert forall n :: n in next <==> n in nodes || n == node;
    assert node in next;
  }

  /** Only one map holds a list of nodes, in whatever order. */
  lemma HeldOnce(a: Daemons, b: Daemons, nodes: seq<ClusterNode>)
    requires Holds(a, nodes) && Holds(b, nodes)
    ensures a == b
  {
    assert a.Keys == b.Keys;
  }

  function InsertNode(node: ClusterNode, sorted: seq<ClusterNode>): seq<ClusterNode> {
    if sorted == [] || node.id <= sorted[0].id then [node] + sorted else [sorted[0]] + InsertNode(node, sorted[1..])
  }

  /** The library sort by id, which keeps equal ids in order. */
  function SortNodes(nodes: seq<ClusterNode>): seq<ClusterNode> {
    if nodes == [] then [] else InsertNode(nodes[0], SortNodes(nodes[1..]))
  }

  /** Replaces the node of that id, or adds the node, and puts the list in
      order; an unchanged node leaves the list as it is. */
  function Upsert(nodes: seq<ClusterNode>, node: ClusterNode): seq<ClusterNode> {
    match FindNode(nodes, node.id)
    case None => SortNodes(nodes + [node])
    case Some(i) => if nodes[i] == node then nodes else SortNodes(nodes[i := node])
  }

  function FindNode(nodes: seq<ClusterNode>, id: NodeId): (r: Option<nat>)
    ensures r.Some? ==> r.value < |nodes| && nodes[r.value].id == id
    ensures r.None? ==> forall n :: n in nodes ==> n.id != id
  {
    if nodes == [] then None
    else if nodes[0].id == id then Some(0)
    else
      var rest := FindNode(nodes[1..], id);
      if rest.None? then (assert nodes == [nodes[0]] + nodes[1..]; None) else Some(rest.value + 1)
  }

  ghost predicate SameNodes(a: seq<ClusterNode>, b: seq<ClusterNode>) { forall n :: n in a <==> n in b }

  lemma {:induction false} InsertNodeKeeps(node: ClusterNode, s: seq<ClusterNode>)
    requires UniqueIds(s) && forall n :: n in s ==> n.id != node.id
    ensures UniqueIds(InsertNode(node, s)) && SameNodes(InsertNode(node, s), [node] + s)
  {
    if s != [] && node.id > s[0].id {
      InsertNodeKeeps(node, s[1..]);
      var rest := InsertNode(node, s[1..]);
      assert s == [s[0]] + s[1..];
      forall n | n in rest ensures n.id != s[0].id {
        if n != node {
          var i :| 0 <= i < |s[1..]| && s[1..][i] == n;
          assert s[i + 1] == n;
        }
      }
    }
  }

  lemma {:induction false} SortNodesKeeps(nodes: seq<ClusterNode>)
    requires UniqueIds(nodes)
    ensures UniqueIds(SortNodes(nodes)) && SameNodes(SortNodes(nodes), nodes)
  {
    if nodes != [] {
      SortNodesKeeps(nodes[1..]);
      assert nodes == [nodes[0]] + nodes[1..];
      var rest := SortNodes(nodes[1..]);
      forall n | n in rest ensures n.id != nodes[0].id {
        var i :| 0 <= i < |nodes[1..]| && nodes[1..][i] == n;
        assert nodes[i + 1] == n;
      }
      InsertNodeKeeps(nodes[0], rest);
    }
  }

  /** Registering a node changes the node list and the catalog alike. */
  lemma UpsertKeepsHeld(daemons: Daemons, nodes: seq<ClusterNode>, node: ClusterNode)
    requires UniqueIds(nodes) && Holds(daemons, nodes)
    ensures UniqueIds(Upsert(nodes, node)) && Holds(daemons[node.id := node], Upsert(nodes, node))
  {
    hide SortNodes;
    match FindNode(nodes, node.id)
    case None =>
      var next := nodes + [node];
      assert UniqueIds(next);
      SortNodesKeeps(next);
      HeldAnyOrder(daemons[node.id := node], next, SortNodes(next));
    case Some(i) =>
      if nodes[i] == node {
        assert daemons[node.id := node] == daemons;
      } else {
        var next := nodes[i := node];
        ReplacedHeld(daemons, nodes, i, node);
        SortNodesKeeps(next);
        HeldAnyOrder(daemons[node.id := node], next, SortNodes(next));
      }
  }

  lemma HeldAnyOrder(daemons: Daemons, a: seq<ClusterNode>, b: seq<ClusterNode>)
    requires Holds(daemons, a) && SameNodes(a, b)
    ensures Holds(daemons, b)
  {
  }

  lemma ReplacedHeld(daemons: Daemons, nodes: seq<ClusterNode>, i: nat, node: ClusterNode)
    requires UniqueIds(nodes) && Holds(daemons, nodes) && i < |nodes| && nodes[i].id == node.id
    ensures UniqueIds(nodes[i := node]) && Holds(daemons[node.id := node], nodes[i := node])
  {
    var next, held := nodes[i := node], daemons[node.id := node];
    forall n | n in next ensures n.id in held && held[n.id] == n {
      var j :| 0 <= j < |next| && next[j] == n;
      if j != i { assert nodes[j] in nodes && nodes[j].id != nodes[i].id; }
    }
    forall id | id in held ensures held[id] in next && held[id].id == id {
      if id == node.id {
        assert next[i] == node;
      } else {
        var j :| 0 <= j < |nodes| && nodes[j] == daemons[id];
        assert next[j] == nodes[j];
      }
    }
  }

  // -------------------------------------------------------------------- invariant

  /** There is a table for each cataloged space and for no other, and spaces are
      filed under their names. */
  predicate SpacesInStep(s: State) {
    s.catalog.Keys == s.storage.Keys && forall name :: name in s.catalog ==> s.catalog[name].name == name
  }

  /** No id is listed twice, and the catalog knows exactly the nodes of the
      cluster configuration. */
  ghost predicate NodesInStep(s: State) { UniqueIds(s.cluster.nodes) && Holds(s.daemons, s.cluster.nodes) }

  ghost predicate Consistent(s: State) { SpacesInStep(s) && NodesInStep(s) }

  /** Versions are 64-bit numbers that wrap around. */
  function NextVersion(version: u64): u64 { (version + 1) % TWO_64 }

  /** One version further, as everybody sees it. */
  predicate MovedOn(before: State, after: State) {
    after.stableThrough == after.version && after.version == if before.version == TWO_64 - 1 then 0 else before.version + 1
  }

  function Changed(s: State): State { s.(version := NextVersion(s.version), stableThrough := NextVersion(s.version)) }

  // ----------------------------------------------------- adopting a configuration

  /** The spaces of a view by name; the last of a name wins. */
  function ViewCatalog(spaces: seq<Space>): Spaces {
    if spaces == [] then map[]
    else ViewCatalog(spaces[..|spaces| - 1])[spaces[|spaces| - 1].name := spaces[|spaces| - 1]]
  }

  predicate UniqueNames(spaces: seq<Space>) {
    forall i, j :: 0 <= i < j < |spaces| ==> spaces[i].name != spaces[j].name
  }

  /** Whatever the list says about a space of that name is this definition. */
  predicate AlwaysDefinedAs(spaces: seq<Space>, definition: Space) {
    forall d :: d in spaces && d.name == definition.name ==> d == definition
  }

  /** The table a listed space has once the list is adopted: the one it had, if
      it was defined just so and the list never says otherwise, and a fresh one
      if not. */
  function AdoptedTable(catalog: Spaces, storage: Storage, spaces: seq<Space>, name: SpaceName): Table {
    if name in catalog && catalog[name].name == name && AlwaysDefinedAs(spaces, catalog[name]) && name in storage
    then storage[name] else map[]
  }

  function AdoptedStorage(catalog: Spaces, storage: Storage, spaces: seq<Space>): Storage {
    map name | name in ViewCatalog(spaces) :: AdoptedTable(catalog, storage, spaces, name)
  }

  /** The configuration after adopting a view. */
  function Adopted(s: State, view: View): State {
    State(ViewCatalog(view.spaces), NodeMap(view.cluster.nodes), view.cluster,
          AdoptedStorage(s.catalog, s.storage, view.spaces), view.version, view.stableThrough)
  }

  lemma {:induction false} ViewCatalogNames(spaces: seq<Space>)
    ensures forall name :: name in ViewCatalog(spaces) ==> ViewCatalog(spaces)[name].name == name
    ensures forall name :: name in ViewCatalog(spaces) <==> exists s :: s in spaces && s.name == name
  {
    if spaces != [] {
      var init, last := spaces[..|spaces| - 1], spaces[|spaces| - 1];
      ViewCatalogNames(init);
      assert spaces == init + [last] && last in spaces;
      forall name ensures name in ViewCatalog(spaces) <==> exists s :: s in spaces && s.name == name {
        if s :| s in spaces && s.name == name { assert s in init || s == last; }
        if s :| s in init && s.name == name { assert s in spaces; }
      }
    }
  }

  lemma {:induction false} ViewCatalogHolds(spaces: seq<Space>, s: Space)
    requires UniqueNames(spaces) && s in spaces
    ensures s.name in ViewCatalog(spaces) && ViewCatalog(spaces)[s.name] == s
  {
    var init, last := spaces[..|spaces| - 1], spaces[|spaces| - 1];
    assert spaces == init + [last];
    if s != last {
      var i :| 0 <= i < |init| && init[i] == s;
      assert spaces[i] == s && s in init;
      ViewCatalogHolds(init, s);
    }
  }

  lemma ViewCatalogFacts(spaces: seq<Space>)
    ensures forall name :: name in ViewCatalog(spaces) ==> ViewCatalog(spaces)[name].name == name
    ensures forall name :: name in ViewCatalog(spaces) <==> exists s :: s in spaces && s.name == name
    ensures UniqueNames(spaces) ==> forall s :: s in spaces ==> s.name in ViewCatalog(spaces) && ViewCatalog(spaces)[s.name] == s
  {
    hide ViewCatalog, UniqueNames;
    ViewCatalogNames(spaces);
    if UniqueNames(spaces) {
      forall s | s in spaces ensures s.name in ViewCatalog(spaces) && ViewCatalog(spaces)[s.name] == s { ViewCatalogHolds(spaces, s); }
    }
  }

  // -------------------------------------------------------- maps under construction

  function Without<V>(m: map<SpaceName, V>, names: set<SpaceName>): map<SpaceName, V> { m - names }

  function Overlay<V>(below: map<SpaceName, V>, above: map<SpaceName, V>): map<SpaceName, V> { below + above }

  function NamesOf(spaces: seq<Space>): set<SpaceName> { set s | s in spaces :: s.name }

  lemma WithoutNothing<V>(m: map<SpaceName, V>)
    ensures Without(m, {}) == m
  {
  }

  lemma WithoutOneMore<V>(m: map<SpaceName, V>, names: set<SpaceName>, name: SpaceName)
    ensures Without(Without(m, names), {name}) == Without(m, names + {name})
    ensures Without(m, names).Keys == m.Keys - names
  {
  }

  lemma OverlayNothing<V>(m: map<SpaceName, V>)
    ensures Overlay(m, map[]) == m
  {
  }

  lemma OverlayOneMore<V>(a: map<SpaceName, V>, b: map<SpaceName, V>, name: SpaceName, v: V)
    ensures Overlay(a, b)[name := v] == Overlay(a, b[name := v])
  {
  }

  lemma OverlayAll<V>(below: map<SpaceName, V>, above: map<SpaceName, V>)
    requires below.Keys <= above.Keys
    ensures Overlay(below, above) == above
  {
  }

  // ------------------------------------------------------------------- the runtime

  class ClusterRuntime {
    var catalog: Spaces
    var daemons: Daemons
    var cluster: ClusterConfig
    var storage: Storage
    var version: u64
    var stableThrough: u64

    ghost function Contents(): State
      reads this
    {
      State(catalog, daemons, cluster, storage, version, stableThrough)
    }

    ghost predicate Valid()
      reads this
    {
      SpacesInStep(Contents())
    }

    constructor (config: ClusterConfig)
      ensures Valid() && Contents() == State(map[], NodeMap(config.nodes), config, map[], 0, 0)
      ensures UniqueIds(config.nodes) ==> Consistent(Contents())
    {
      catalog, storage := map[], map[];
      daemons := NodeMap(config.nodes);
      cluster := config;
      version, stableThrough := 0, 0;
      if UniqueIds(config.nodes) { NodeMapHolds(config.nodes); }
    }

    method RecordConfigChange()
      modifies this`version, this`stableThrough
      ensures Contents() == Changed(old(Contents())) && MovedOn(old(Contents()), Contents())
    {
      version := NextVersion(version);
      stableThrough := version;
    }

    /** The table is made before the catalog can refuse, yet a refusal leaves no
        trace. */
    method CreateSpace(space: Space) returns (r: Result<()>)
      requires Valid()
      modifies this
      ensures Valid()
      ensures space.name in old(catalog) ==> r == Err(Other) && Contents() == old(Contents())
      ensures space.name !in old(catalog) ==>
        r == Ok(()) && Contents() == Changed(old(Contents()).(catalog := old(catalog)[space.name := space],
                                                             storage := old(storage)[space.name := map[]]))
      ensures r.Ok? ==> MovedOn(old(Contents()), Contents())
    {
      if space.name !in storage {
        storage := storage[space.name := map[]];
      }
      if space.name in catalog {
        return Err(Other);
      }
      catalog := catalog[space.name := space];
      RecordConfigChange();
      r := Ok(());
    }

    method DropSpace(name: SpaceName) returns (r: Result<()>)
      requires Valid()
      modifies this
      ensures Valid()
      ensures name !in old(catalog) ==> r == Err(Other) && Contents() == old(Contents())
      ensures name in old(catalog) ==>
        r == Ok(()) && Contents() == Changed(old(Contents()).(catalog := Without(old(catalog), {name}),
                                                             storage := Without(old(storage), {name})))
      ensures r.Ok? ==> MovedOn(old(Contents()), Contents())
    {
      if name !in catalog {
        return Err(Other);
      }
      catalog := catalog - {name};
      storage := storage - {name};
      RecordConfigChange();
      r := Ok(());
    }

    method RegisterDaemon(node: ClusterNode)
      requires Valid()
      modifies this
      ensures Valid()
      ensures old(NodesInStep(Contents())) ==> NodesInStep(Contents())
      ensures
        var next := old(Contents()).(daemons := old(daemons)[node.id := node],
                                     cluster := old(cluster).(nodes := Upsert(old(cluster).nodes, node)));
        Contents() == if next == old(Contents()) then next else Changed(next)
      ensures Contents() == old(Contents()) || MovedOn(old(Contents()), Contents())
    {
      hide Holds, UniqueIds, Upsert;
      ghost var before := Contents();
      if NodesInStep(before) { UpsertKeepsHeld(daemons, cluster.nodes, node); }
      var catalogChanged := node.id !in daemons || daemons[node.id] != node;
      daemons := daemons[node.id := node];
      var nodes := Upsert(cluster.nodes, node);
      var configChanged := nodes != cluster.nodes;
      cluster := cluster.(nodes := nodes);
      assert !catalogChanged ==> daemons == before.daemons;
      if catalogChanged || configChanged {
        RecordConfigChange();
      }
    }

    /** The view lists the cataloged spaces; here in any order. */
    method ConfigView() returns (view: View)
      requires Valid()
      ensures view == View(version, stableThrough, cluster, view.spaces) && Shows(view.spaces, catalog)
    {
      var spaces: seq<Space> := [];
      var todo := catalog.Keys;
      while todo != {}
        invariant todo <= catalog.Keys && Shows(spaces, catalog - todo)
        decreases |todo|
      {
        var name :| name in todo;
        ghost var rest := todo - {name};
        ShowsOneMore(spaces, catalog, todo, name);
        spaces := spaces + [catalog[name]];
        todo := todo - {name};
      }
      assert catalog - {} == catalog;
      view := View(version, stableThrough, cluster, spaces);
    }

    lemma ShowsOneMore(spaces: seq<Space>, catalog: Spaces, todo: set<SpaceName>, name: SpaceName)
      requires Shows(spaces, catalog - todo) && name in todo && todo <= catalog.Keys
      requires forall n :: n in catalog ==> catalog[n].name == n
      ensures Shows(spaces + [catalog[name]], catalog - (todo - {name}))
    {
      var next := spaces + [catalog[name]];
      forall i, j | 0 <= i < j < |next| ensures next[i].name != next[j].name {
        if j == |spaces| { assert next[i] == spaces[i] && spaces[i] in spaces; }
      }
      forall n | n in catalog - (todo - {name}) ensures (catalog - (todo - {name}))[n] in next {
        if n != name { assert (catalog - todo)[n] in spaces; }
      }
    }

    /** Drops the cataloged spaces that `keep` does not name. */
    method DropOthers(keep: set<SpaceName>)
      requires Valid()
      modifies this
      ensures Valid() && daemons == old(daemons) && cluster == old(cluster)
      ensures catalog == Without(old(catalog), old(catalog).Keys - keep)
      ensures storage == Without(old(storage), old(catalog).Keys - keep)
    {
      hide Without, SpacesInStep;
      ghost var cat0, sto0, d0, c0 := catalog, storage, daemons, cluster;
      ghost var others := catalog.Keys - keep;
      var todo := catalog.Keys - keep;
      WithoutNothing(cat0);
      WithoutNothing(sto0);
      assert others - todo == {};
      while todo != {}
        invariant Valid() && daemons == d0 && cluster == c0
        invariant todo <= others
        invariant catalog == Without(cat0, others - todo) && storage == Without(sto0, others - todo)
        decreases |todo|
      {
        var name :| name in todo;
        NextToDrop(cat0, others, todo, name);
        WithoutOneMore(sto0, others - todo, name);
        var dropped := DropSpace(name);
        todo := todo - {name};
      }
      assert others - {} == others;
    }

    lemma NextToDrop(cat0: Spaces, others: set<SpaceName>, todo: set<SpaceName>, name: SpaceName)
      requires todo <= others <= cat0.Keys && name in todo
      ensures name in Without(cat0, others - todo)
      ensures (others - todo) + {name} == others - (todo - {name})
      ensures Without(Without(cat0, others - todo), {name}) == Without(cat0, others - (todo - {name}))
    {
      WithoutOneMore(cat0, others - todo, name);
      assert (others - todo) + {name} == others - (todo - {name});
    }

    /** Brings one space in line with its definition. */
    method AdoptSpace(space: Space)
      requires Valid()
      modifies this
      ensures Valid() && daemons == old(daemons) && cluster == old(cluster)
      ensures catalog == old(catalog)[space.name := space]
      ensures storage == old(storage)[space.name := KeptTable(old(catalog), old(storage), space)]
    {
      if space.name in catalog && catalog[space.name] == space {
        assert storage == storage[space.name := storage[space.name]];
        return;
      }
      if space.name in catalog {
        var dropped := DropSpace(space.name);
      }
      var created := CreateSpace(space);
    }

    method ApplyConfigView(view: View)
      requires Valid()
      modifies this
      ensures Valid()
      ensures Contents() == Adopted(old(Contents()), view)
      ensures UniqueIds(view.cluster.nodes) ==> Consistent(Contents())
    {
      hide Holds, UniqueIds, AdoptedStorage, KeptTable, Without, Overlay, NamesOf, ViewCatalog;
      ghost var cat0, sto0 := catalog, storage;
      daemons := NodeMap(view.cluster.nodes);
      cluster := view.cluster;
      if UniqueIds(view.cluster.nodes) { NodeMapHolds(view.cluster.nodes); }
      var names := NamesOf(view.spaces);
      DropOthers(names);
      ghost var cat1, sto1 := catalog, storage;
      assert view.spaces[..0] == [];
      NothingAdopted(cat0, sto0, cat1, sto1);
      for i := 0 to |view.spaces|
        invariant Valid() && daemons == NodeMap(view.cluster.nodes) && cluster == view.cluster
        invariant catalog == Overlay(cat1, ViewCatalog(view.spaces[..i]))
        invariant storage == Overlay(sto1, AdoptedStorage(cat0, sto0, view.spaces[..i]))
      {
        OneMoreSpace(cat0, sto0, view.spaces, i);
        AdoptSpace(view.spaces[i]);
      }
      version, stableThrough := view.version, view.stableThrough;
      assert view.spaces[..|view.spaces|] == view.spaces;
      NothingElseLeft(cat0, sto0, view.spaces);
    }
  }

  /** What one step of the adoption leaves of a space's table. */
  function KeptTable(catalog: Spaces, storage: Storage, definition: Space): Table {
    var name := definition.name;
    if name in catalog && catalog[name] == definition && name in storage then storage[name] else map[]
  }

  lemma NothingAdopted(cat0: Spaces, sto0: Storage, catalog: Spaces, storage: Storage)
    ensures Overlay(catalog, ViewCatalog([])) == catalog
    ensures Overlay(storage, AdoptedStorage(cat0, sto0, [])) == storage
  {
    assert AdoptedStorage(cat0, sto0, []) == map[];
    OverlayNothing(catalog);
    OverlayNothing(storage);
  }

  lemma OneMoreSpace(cat0: Spaces, sto0: Storage, spaces: seq<Space>, i: nat)
    requires i < |spaces| && cat0.Keys == sto0.Keys && forall name :: name in cat0 ==> cat0[name].name == name
    ensures
      var dropped := cat0.Keys - NamesOf(spaces);
      var catalog := Overlay(Without(cat0, dropped), ViewCatalog(spaces[..i]));
      var storage := Overlay(Without(sto0, dropped), AdoptedStorage(cat0, sto0, spaces[..i]));
      && catalog[spaces[i].name := spaces[i]] == Overlay(Without(cat0, dropped), ViewCatalog(spaces[..i + 1]))
      && storage[spaces[i].name := KeptTable(catalog, storage, spaces[i])]
         == Overlay(Without(sto0, dropped), AdoptedStorage(cat0, sto0, spaces[..i + 1]))
  {
    hide Overlay, Without, NamesOf, ViewCatalog, AdoptedStorage, KeptTable;
    var space, init, dropped := spaces[i], spaces[..i], cat0.Keys - NamesOf(spaces);
    var catalog := Overlay(Without(cat0, dropped), ViewCatalog(init));
    var storage := Overlay(Without(sto0, dropped), AdoptedStorage(cat0, sto0, init));
    assert spaces[..i + 1] == init + [space];
    OneMoreDefined(init, space);
    OneMoreTable(cat0, sto0, init, space);
    NameListed(spaces, i);
    KeptIsAdopted(cat0, sto0, init, space, dropped);
    OverlayOneMore(Without(cat0, dropped), ViewCatalog(init), space.name, space);
    OverlayOneMore(Without(sto0, dropped), AdoptedStorage(cat0, sto0, init), space.name,
                   AdoptedTable(cat0, sto0, init + [space], space.name));
  }

  lemma OneMoreDefined(init: seq<Space>, space: Space)
    ensures ViewCatalog(init + [space]) == ViewCatalog(init)[space.name := space]
  {
    assert (init + [space])[..|init|] == init;
  }

  lemma OneMoreTable(catalog: Spaces, storage: Storage, init: seq<Space>, space: Space)
    requires forall name :: name in catalog ==> catalog[name].name == name
    ensures AdoptedStorage(catalog, storage, init + [space])
      == AdoptedStorage(catalog, storage, init)[space.name := AdoptedTable(catalog, storage, init + [space], space.name)]
  {
    hide ViewCatalog;
    OneMoreDefined(init, space);
    forall name | name in ViewCatalog(init) && name != space.name
      ensures AdoptedTable(catalog, storage, init + [space], name) == AdoptedTable(catalog, storage, init, name)
    {
      if name in catalog {
        assert forall d :: d in init + [space] && d.name == name <==> d in init && d.name == name;
      }
    }
  }

  /** Keeping or dropping the table at each definition in turn comes to keeping
      it if all of them are the old one. */
  lemma KeptIsAdopted(cat0: Spaces, sto0: Storage, init: seq<Space>, space: Space, dropped: set<SpaceName>)
    requires cat0.Keys == sto0.Keys && space.name !in dropped && forall name :: name in cat0 ==> cat0[name].name == name
    ensures
      var catalog := Overlay(Without(cat0, dropped), ViewCatalog(init));
      var storage := Overlay(Without(sto0, dropped), AdoptedStorage(cat0, sto0, init));
      KeptTable(catalog, storage, space) == AdoptedTable(cat0, sto0, init + [space], space.name)
  {
    hide ViewCatalog;
    var name := space.name;
    ViewCatalogFacts(init);
    if name in ViewCatalog(init) {
      var last := ViewCatalog(init)[name];
      assert last in init && last.name == name by { LastDefinition(init, name); }
      assert last in init + [space] && space in init + [space];
      assert forall d :: d in init + [space] <==> d in init || d == space;
    } else {
      assert forall d :: d in init ==> d.name != name;
      assert space in init + [space] && forall d :: d in init + [space] && d.name == name ==> d == space;
    }
  }

  lemma {:induction false} LastDefinition(spaces: seq<Space>, name: SpaceName)
    requires name in ViewCatalog(spaces)
    ensures ViewCatalog(spaces)[name] in spaces && ViewCatalog(spaces)[name].name == name
  {
    var init, last := spaces[..|spaces| - 1], spaces[|spaces| - 1];
    assert spaces == init + [last];
    if name != last.name { LastDefinition(init, name); }
  }

  lemma NameListed(spaces: seq<Space>, i: nat)
    requires i < |spaces|
    ensures spaces[i].name in NamesOf(spaces)
  {
    assert spaces[i] in spaces;
  }

  lemma NothingElseLeft(cat0: Spaces, sto0: Storage, spaces: seq<Space>)
    requires cat0.Keys == sto0.Keys
    ensures var dropped := cat0.Keys - NamesOf(spaces);
      && Overlay(Without(cat0, dropped), ViewCatalog(spaces)) == ViewCatalog(spaces)
      && Overlay(Without(sto0, dropped), AdoptedStorage(cat0, sto0, spaces)) == AdoptedStorage(cat0, sto0, spaces)
  {
    ViewCatalogFacts(spaces);
    assert NamesOf(spaces) == ViewCatalog(spaces).Keys;
    var dropped := cat0.Keys - NamesOf(spaces);
    hide Overlay, AdoptedStorage, ViewCatalog;
    OverlayAll(Without(cat0, dropped), ViewCatalog(spaces));
    OverlayAll(Without(sto0, dropped), AdoptedStorage(cat0, sto0, spaces));
  }

  /** A list of spaces that shows the whole catalog, each space once. */
  ghost predicate Shows(spaces: seq<Space>, catalog: Spaces) {
    && UniqueNames(spaces)
    && (forall s :: s in spaces ==> s.name in catalog && catalog[s.name] == s)
    && (forall name :: name in catalog ==> catalog[name] in spaces && catalog[name].name == name)
  }

  // --------------------------------------------------------------- what it achieves

  /** Spaces whose definition the view repeats, and never contradicts, keep their
      records. */
  lemma UnchangedSpacesKeepRecords(s: State, view: View, name: SpaceName)
    requires SpacesInStep(s) && name in s.catalog && s.catalog[name] in view.spaces
    requires AlwaysDefinedAs(view.spaces, s.catalog[name])
    ensures name in Adopted(s, view).catalog && Adopted(s, view).catalog[name] == s.catalog[name]
    ensures name in Adopted(s, view).storage && Adopted(s, view).storage[name] == s.storage[name]
  {
    ViewCatalogFacts(view.spaces);
    LastDefinition(view.spaces, name);
  }

  /** Spaces that are new, or defined otherwise anywhere in the view, start empty;
      spaces the view does not name are gone. */
  lemma OtherSpacesStartEmpty(s: State, view: View, name: SpaceName)
    requires SpacesInStep(s)
    requires !(name in s.catalog && s.catalog[name] in view.spaces && AlwaysDefinedAs(view.spaces, s.catalog[name]))
    ensures name in Adopted(s, view).storage <==> exists d :: d in view.spaces && d.name == name
    ensures name in Adopted(s, view).storage ==> Adopted(s, view).storage[name] == map[]
  {
    ViewCatalogFacts(view.spaces);
    if name in ViewCatalog(view.spaces) { LastDefinition(view.spaces, name); }
  }

  /** Adopting a view again changes nothing. */
  lemma AdoptionSettles(s: State, view: View)
    requires SpacesInStep(s)
    ensures Adopted(Adopted(s, view), view) == Adopted(s, view)
  {
    hide ViewCatalog;
    var once, twice := Adopted(s, view), Adopted(Adopted(s, view), view);
    ViewCatalogFacts(view.spaces);
    forall name | name in ViewCatalog(view.spaces) ensures twice.storage[name] == once.storage[name] {
      LastDefinition(view.spaces, name);
    }
  }

  /** Where a runtime sends a key. */
  ghost function LocateIn(s: State, space: SpaceName, hash: u64): Result<PlacementDecision> {
    if space !in s.catalog then Err(SchemaGap) else Locate(Ascending(s.daemons.Keys), s.catalog[space].options, hash)
  }

  /** A daemon that adopts any view its coordinator can show ends up with the
      coordinator's catalog, nodes and versions, so that both send every key to
      the same replicas. */
  lemma AdoptionConverges(coordinator: State, daemon: State, spaces: seq<Space>)
    requires Consistent(coordinator) && Shows(spaces, coordinator.catalog)
    ensures var view := View(coordinator.version, coordinator.stableThrough, coordinator.cluster, spaces);
      var after := Adopted(daemon, view);
      && after == coordinator.(storage := after.storage)
      && after.storage.Keys == coordinator.storage.Keys
      && forall space: SpaceName, hash: u64 :: LocateIn(after, space, hash) == LocateIn(coordinator, space, hash)
  {
    hide Holds, Ascending, Locate;
    ViewCatalogFacts(spaces);
    assert ViewCatalog(spaces) == coordinator.catalog;
    NodeMapHolds(coordinator.cluster.nodes);
    HeldOnce(NodeMap(coordinator.cluster.nodes), coordinator.daemons, coordinator.cluster.nodes);
  }

  /** In a consistent configuration with nodes, every key of a cataloged space
      with partitions has a place. */
  lemma CatalogedKeysArePlaced(s: State, space: SpaceName, hash: u64)
    requires Consistent(s) && space in s.catalog && s.cluster.nodes != [] && s.catalog[space].options.partitions > 0
    ensures LocateIn(s, space, hash).Ok?
    ensures forall n :: n in LocateIn(s, space, hash).value.replicas ==> exists node :: node in s.cluster.nodes && node.id == n
  {
    hide Locate;
    var layout := Ascending(s.daemons.Keys);
    AscendingFacts(s.daemons.Keys);
    assert s.cluster.nodes[0] in s.cluster.nodes && s.cluster.nodes[0].id in s.daemons;
    assert s.cluster.nodes[0].id in layout;
    LocateWellFormed(layout, s.catalog[space].options, hash);
    forall n | n in LocateIn(s, space, hash).value.replicas ensures exists node :: node in s.cluster.nodes && node.id == n {
      assert n in layout && n in s.daemons;
      assert s.daemons[n] in s.cluster.nodes && s.daemons[n].id == n;
    }
  }
}
