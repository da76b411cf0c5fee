/** The coordinator's writer of packed spaces: buffers that grow, ids that are
    handed out, loop by loop as in crates/server. */
module PackedEncoding {
  import opened Base
  import opened CutDimensions
  import opened DataModel
  import opened Lists
  import opened PackedSpace
  import opened Regions
  import opened Routing
  import opened Wire

  class LegacyConfigIds {
    var nextId: nat

    constructor ()
      ensures nextId == 1
    {
      nextId := 1;
    }

    method Allocate() returns (id: nat)
      modifies this
      ensures id == old(nextId) && nextId == old(nextId) + 1
    {
      id := nextId;
      nextId := nextId + 1;
    }
  }

  /** The writer put the specified bytes behind `out` and used up the ids below `next`. */
  ghost predicate Appended(r: Option<Bytes>, spec: Option<Encoded>, out: Bytes, next: nat) {
    match spec
    case None => r.None?
    case Some(e) => r == Some(out + e.bytes) && next == e.next
  }

  method AppendCoordinates(out: Bytes, box: Box) returns (r: Bytes)
    requires OnWire(box)
    ensures r == out + Coordinates(box, 0)
  {
    hide Be, OnWire;
    r := out;
    for i := 0 to |box.lower|
      invariant r + Coordinates(box, i) == out + Coordinates(box, 0)
    {
      OnWireAt(box, i);
      ghost var rest := Coordinates(box, i + 1);
      var lower, upper := Be(box.lower[i], 8), Be(box.upper[i], 8);
      Assoc(r, lower + upper, rest);
      Assoc(r, lower, upper);
      r := r + lower;
      r := r + upper;
    }
    assert r + [] == r;
  }

  lemma OnWireAt(box: Box, i: nat)
    requires OnWire(box) && i < |box.lower|
    ensures i < |box.upper| && box.lower[i] >= 0 && box.upper[i] >= 0
  {
  }

  method AppendReplicas(out: Bytes, servers: seq<NodeId>, ids: LegacyConfigIds) returns (r: Bytes)
    modifies ids
    ensures r == out + Replicas(servers, old(ids.nextId)) && ids.nextId == old(ids.nextId) + |servers|
  {
    hide Be;
    r := out;
    assert servers[0..] == servers;
    for i := 0 to |servers|
      invariant ids.nextId == old(ids.nextId) + i
      invariant r + Replicas(servers[i..], ids.nextId) == out + Replicas(servers, old(ids.nextId))
    {
      assert servers[i..][1..] == servers[i + 1..];
      ghost var rest := Replicas(servers[i + 1..], ids.nextId + 1);
      var id := ids.Allocate();
      Assoc(r, Be(servers[i], 8) + Be(id, 8), rest);
      Assoc(r, Be(servers[i], 8), Be(id, 8));
      r := r + Be(servers[i], 8);
      r := r + Be(id, 8);
    }
    assert servers[|servers|..] == [] && r + [] == r;
  }

  method AppendRegion(out: Bytes, box: Box, id: nat, servers: seq<NodeId>, ids: LegacyConfigIds) returns (r: Bytes)
    requires OnWire(box) && |servers| < 0x100
    modifies ids
    ensures r == out + EncodeRegion(box, id, servers, old(ids.nextId)) && ids.nextId == old(ids.nextId) + |servers|
  {
    hide Be, OnWire, Coordinates, Replicas;
    var head := out + Be(id, 8);
    head := head + Be(|box.lower|, 2);
    head := head + [|servers| as byte];
    r := AppendCoordinates(head, box);
    r := AppendReplicas(r, servers, ids);
    ghost var a, b, c, d := Be(id, 8), Be(|box.lower|, 2), [|servers| as byte], Coordinates(box, 0);
    ghost var e := Replicas(servers, old(ids.nextId));
    Assoc(head, d, e);
    Assoc(out + a + b, c, d + e);
    Assoc(out + a, b, c + (d + e));
    Assoc(out, a, b + (c + (d + e)));
  }

  method AppendRegions(out: Bytes, boxes: seq<Box>, width: nat, regionIds: seq<nat>, sets: seq<seq<NodeId>>, ids: LegacyConfigIds)
    returns (r: Option<Bytes>)
    requires AllOnWire(boxes, width) && |regionIds| == |boxes|
    requires forall i :: 0 <= i < |boxes| ==> regionIds[i] == regionIds[0] + i
    modifies ids
    ensures var firstId := if boxes == [] then 0 else regionIds[0];
      Appended(r, EncodeRegions(boxes, 0, width, firstId, old(ids.nextId), sets), out, ids.nextId)
  {
    hide OnWire, EncodeRegion, SetFor;
    ghost var firstId := if boxes == [] then 0 else regionIds[0];
    ghost var start := ids.nextId;
    var o := out;
    for i := 0 to |boxes|
      invariant AppendsOn(out, EncodeRegions(boxes, 0, width, firstId, start, sets),
                          o, EncodeRegions(boxes, i, width, firstId, ids.nextId, sets))
    {
      assert boxes[i] in boxes;
      var servers := ChosenSet(sets, i, |boxes|);
      if |servers| >= 0x100 {
        return None;
      }
      NextRegion(o, boxes, i, width, firstId, ids.nextId, sets);
      o := AppendRegion(o, boxes[i], regionIds[i], servers, ids);
    }
    assert o + [] == o;
    r := Some(o);
  }

  /** Continuing from `o` leads to what `out` was to become. */
  ghost predicate AppendsOn(out: Bytes, whole: Option<Encoded>, o: Bytes, rest: Option<Encoded>) {
    (whole.None? <==> rest.None?)
    && (whole.Some? ==> out + whole.value.bytes == o + rest.value.bytes && whole.value.next == rest.value.next)
  }

  lemma NextRegion(o: Bytes, boxes: seq<Box>, i: nat, width: nat, firstId: nat, next: nat, sets: seq<seq<NodeId>>)
    requires AllOnWire(boxes, width) && i < |boxes| && |SetFor(sets, i, |boxes|)| < 0x100
    requires OnWire(boxes[i])
    ensures var servers := SetFor(sets, i, |boxes|);
      AppendsOn(o, EncodeRegions(boxes, i, width, firstId, next, sets),
                o + EncodeRegion(boxes[i], firstId + i, servers, next),
                EncodeRegions(boxes, i + 1, width, firstId, next + |servers|, sets))
  {
    hide OnWire, EncodeRegion, SetFor, AllOnWire;
    var servers := SetFor(sets, i, |boxes|);
    var rest := EncodeRegions(boxes, i + 1, width, firstId, next + |servers|, sets);
    if rest.Some? { Assoc(o, EncodeRegion(boxes[i], firstId + i, servers, next), rest.value.bytes); }
  }

  method ChosenSet(sets: seq<seq<NodeId>>, i: nat, total: nat) returns (servers: seq<NodeId>)
    requires i < total
    ensures servers == SetFor(sets, i, total)
  {
    if sets == [] {
      return [];
    }
    ChosenSetInRange(i, |sets|, total);
    servers := sets[i * |sets| / total];
  }

  method AppendIndexes(out: Bytes, indexes: seq<u16>) returns (r: Bytes)
    ensures r == out + Joined(indexes, EncodeIndex)
  {
    hide EncodeIndex;
    r := out;
    assert indexes[0..] == indexes;
    for i := 0 to |indexes|
      invariant r + Joined(indexes[i..], EncodeIndex) == out + Joined(indexes, EncodeIndex)
    {
      assert indexes[i..][1..] == indexes[i + 1..];
      Assoc(r, EncodeIndex(indexes[i]), Joined(indexes[i + 1..], EncodeIndex));
      r := r + EncodeIndex(indexes[i]);
    }
    assert indexes[|indexes|..] == [] && r + [] == r;
  }

  /** A subspace: its regions are cut and numbered before anything is written. */
  method AppendSubspace(out: Bytes, indexes: seq<u16>, roots: Roots, partitions: u32, sets: seq<seq<NodeId>>, ids: LegacyConfigIds)
    returns (r: Option<Bytes>)
    modifies ids
    ensures var boxes := RegionBoxes(roots, |indexes|, partitions);
      if boxes.None? then r.None?
      else Appended(r, EncodeSubspace(indexes, boxes.value, sets, old(ids.nextId)), out, ids.nextId)
  {
    hide Be, OnWire, AllOnWire, EncodeRegions, Joined, RegionBoxes;
    ghost var start := ids.nextId;
    var boxes := CutSubspace(roots, |indexes|, partitions);
    if boxes.None? {
      return None;
    }
    var regions := boxes.value;
    var subspaceId := ids.Allocate();
    var regionIds: seq<nat> := [];
    for i := 0 to |regions|
      invariant ids.nextId == start + 1 + i && |regionIds| == i
      invariant forall j :: 0 <= j < i ==> regionIds[j] == start + 1 + j
    {
      var id := ids.Allocate();
      regionIds := regionIds + [id];
    }
    if |indexes| >= 0x1_0000 || |regions| >= 0x1_0000_0000 {
      return None;
    }
    var o := out + Be(subspaceId, 8);
    o := o + Be(|indexes|, 2);
    o := o + Be(|regions|, 4);
    o := AppendIndexes(o, indexes);
    r := AppendRegions(o, regions, |indexes|, regionIds, sets, ids);
    NoRegions(regions, |indexes|, start + 1, start + 1 + |regions|, sets);
    ghost var spec := EncodeRegions(regions, 0, |indexes|, start + 1, start + 1 + |regions|, sets);
    if spec.Some? { SubspaceLaidOut(out, subspaceId, indexes, |regions|, spec.value.bytes); }
  }

  lemma SubspaceLaidOut(out: Bytes, id: nat, indexes: seq<u16>, regions: nat, body: Bytes)
    ensures out + Be(id, 8) + Be(|indexes|, 2) + Be(regions, 4) + Joined(indexes, EncodeIndex) + body
      == out + SubspaceBytes(id, indexes, regions, body)
  {
    hide Be, Joined;
    var a, b, c, d := Be(id, 8), Be(|indexes|, 2), Be(regions, 4), Joined(indexes, EncodeIndex);
    Assoc(out + a + b + c, d, body);
    Assoc(out + a + b, c, d + body);
    Assoc(out + a, b, c + (d + body));
    Assoc(out, a, b + (c + (d + body)));
  }

  /** Without regions the first region id does not matter. */
  lemma NoRegions(boxes: seq<Box>, width: nat, firstId: nat, next: nat, sets: seq<seq<NodeId>>)
    requires AllOnWire(boxes, width)
    ensures boxes == [] ==> EncodeRegions(boxes, 0, width, firstId, next, sets) == EncodeRegions(boxes, 0, width, 0, next, sets)
  {
  }

  method CutSubspace(roots: Roots, width: nat, partitions: u32) returns (boxes: Option<seq<Box>>)
    ensures boxes == RegionBoxes(roots, width, partitions)
  {
    hide OnWire, AllOnWire;
    var root := RootOf(roots, width, partitions);
    if width == 0 || root == 0 || !Cuttable(Dimensions(root, width, partitions)) {
      return None;
    }
    var cut := PartitionRegions(root, width, partitions);
    boxes := Some(cut);
  }

  // ----------------------------------------------------------------- attributes

  /** The table that finds an attribute's index: a later attribute of the same
      name takes its place. */
  ghost predicate TableOfPositions(table: map<Name, u16>, names: seq<Name>)
    requires |names| < 0x1_0000
  {
    forall name :: (name in table <==> Position(names, name).Some?)
      && (name in table ==> Position(names, name) == Some(table[name]))
  }

  lemma TableGrows(table: map<Name, u16>, names: seq<Name>, name: Name)
    requires |names| + 1 < 0x1_0000 && TableOfPositions(table, names)
    ensures TableOfPositions(table[name := |names|], names + [name])
  {
    assert (names + [name])[..|names|] == names;
  }

  method IndexAttributes(names: seq<Name>) returns (table: map<Name, u16>)
    requires |names| < 0x1_0000
    ensures TableOfPositions(table, names)
  {
    hide Position;
    table := map[];
    EmptyTable();
    assert names[..0] == [];
    for i := 0 to |names|
      invariant TableOfPositions(table, names[..i])
    {
      TableGrows(table, names[..i], names[i]);
      assert names[..i] + [names[i]] == names[..i + 1];
      table := table[names[i] := i];
    }
    assert names[..|names|] == names;
  }

  lemma EmptyTable()
    ensures TableOfPositions(map[], [])
  {
  }

  method LookUpDimensions(table: map<Name, u16>, names: seq<Name>, dimensions: seq<Name>) returns (r: Option<seq<u16>>)
    requires |names| < 0x1_0000 && TableOfPositions(table, names)
    ensures r == Positions(names, dimensions)
  {
    hide Position;
    var indexes: seq<u16> := [];
    ResumeNothing(Positions(names, dimensions));
    assert dimensions[0..] == dimensions;
    for i := 0 to |dimensions|
      invariant Resume(indexes, Positions(names, dimensions[i..])) == Positions(names, dimensions)
    {
      assert dimensions[i..][1..] == dimensions[i + 1..];
      if dimensions[i] !in table {
        return None;
      }
      var index := table[dimensions[i]];
      ResumeMore(indexes, [index], Positions(names, dimensions[i + 1..]));
      indexes := indexes + [index];
    }
    assert dimensions[|dimensions|..] == [] && indexes + [] == indexes;
    r := Some(indexes);
  }

  method AppendSubspaces(out: Bytes, names: seq<Name>, subspaces: seq<Subspace>, roots: Roots, partitions: u32,
                         sets: seq<seq<NodeId>>, ids: LegacyConfigIds) returns (r: Option<Bytes>)
    requires |names| < 0x1_0000
    modifies ids
    ensures Appended(r, EncodeSubspaces(names, subspaces, roots, partitions, sets, old(ids.nextId)), out, ids.nextId)
  {
    hide EncodeSubspace, RegionBoxes, Positions, TableOfPositions;
    var table := IndexAttributes(names);
    ghost var start := ids.nextId;
    var o := out;
    assert subspaces[0..] == subspaces;
    for i := 0 to |subspaces|
      invariant AppendsOn(out, EncodeSubspaces(names, subspaces, roots, partitions, sets, start),
                          o, EncodeSubspaces(names, subspaces[i..], roots, partitions, sets, ids.nextId))
    {
      assert subspaces[i..][1..] == subspaces[i + 1..];
      var indexes := LookUpDimensions(table, names, subspaces[i].dimensions);
      if indexes.None? {
        return None;
      }
      ghost var before, from := o, ids.nextId;
      var next := AppendSubspace(o, indexes.value, roots, partitions, sets, ids);
      if next.None? {
        return None;
      }
      o := next.value;
      NextSubspaceWritten(before, o, names, subspaces[i], subspaces[i..], roots, partitions, sets, from, ids.nextId);
    }
    assert subspaces[|subspaces|..] == [] && o + [] == o;
    r := Some(o);
  }

  lemma NextSubspaceWritten(before: Bytes, after: Bytes, names: seq<Name>, first: Subspace, subspaces: seq<Subspace>, roots: Roots,
                            partitions: u32, sets: seq<seq<NodeId>>, from: nat, next: nat)
    requires |names| < 0x1_0000 && subspaces != [] && subspaces[0] == first
    requires Positions(names, first.dimensions).Some?
    requires var indexes := Positions(names, first.dimensions).value;
      var boxes := RegionBoxes(roots, |indexes|, partitions);
      && boxes.Some? && EncodeSubspace(indexes, boxes.value, sets, from).Some?
      && Appended(Some(after), EncodeSubspace(indexes, boxes.value, sets, from), before, next)
    ensures AppendsOn(before, EncodeSubspaces(names, subspaces, roots, partitions, sets, from),
                      after, EncodeSubspaces(names, subspaces[1..], roots, partitions, sets, next))
  {
    hide EncodeSubspace, RegionBoxes, Positions;
    var indexes := Positions(names, first.dimensions).value;
    var encoded := EncodeSubspace(indexes, RegionBoxes(roots, |indexes|, partitions).value, sets, from).value;
    var rest := EncodeSubspaces(names, subspaces[1..], roots, partitions, sets, next);
    if rest.Some? { Assoc(before, encoded.bytes, rest.value.bytes); }
  }

  // ---------------------------------------------------------------- whole spaces

  method TabulateAttributes(space: Space) returns (r: Option<seq<PackedAttribute>>)
    ensures r == AttributeTable(space)
  {
    hide HyperDatatype;
    var key := PackedAttribute(space.keyAttribute, STRING_CODE);
    var attrs := [key];
    assert space.attributes[0..] == space.attributes;
    ghost var spec := Codes(space.attributes);
    for i := 0 to |space.attributes|
      invariant Resume(attrs, Codes(space.attributes[i..])) == Resume([key], spec)
    {
      assert space.attributes[i..][1..] == space.attributes[i + 1..];
      var attribute := space.attributes[i];
      var code := HyperDatatype(attribute.kind);
      if code.None? {
        return None;
      }
      var next := PackedAttribute(attribute.name, code.value);
      ResumeMore(attrs, [next], Codes(space.attributes[i + 1..]));
      attrs := attrs + [next];
    }
    assert space.attributes[|space.attributes|..] == [] && attrs + [] == attrs;
    r := Some(attrs);
  }

  method AppendAttributes(out: Bytes, attrs: seq<PackedAttribute>) returns (r: Bytes)
    ensures r == out + Joined(attrs, EncodeAttribute)
  {
    hide EncodeAttribute;
    r := out;
    assert attrs[0..] == attrs;
    for i := 0 to |attrs|
      invariant r + Joined(attrs[i..], EncodeAttribute) == out + Joined(attrs, EncodeAttribute)
    {
      assert attrs[i..][1..] == attrs[i + 1..];
      Assoc(r, EncodeAttribute(attrs[i]), Joined(attrs[i + 1..], EncodeAttribute));
      r := r + EncodeAttribute(attrs[i]);
    }
    assert attrs[|attrs|..] == [] && r + [] == r;
  }

  method AppendSpace(out: Bytes, space: Space, serverIds: seq<NodeId>, roots: Roots, ids: LegacyConfigIds) returns (r: Option<Bytes>)
    modifies ids
    ensures Appended(r, EncodeSpace(space, serverIds, roots, old(ids.nextId)), out, ids.nextId)
  {
    hide Be, EncodeText, Joined, AttributeTable, ReplicaSets, ReplicaCount, RegionBoxes, EncodeSubspace, EncodeSubspaces,
         NamesOf, ShortNames, SpaceBytes;
    var table := TabulateAttributes(space);
    if table.None? {
      return None;
    }
    var attrs := table.value;
    if |attrs| >= 0x1_0000 || |space.subspaces| + 1 >= 0x1_0000 || !ShortNames(space, attrs) {
      return None;
    }
    var options := space.options;
    ghost var start := ids.nextId;
    var id := ids.Allocate();
    var o := out + Be(id, 8);
    o := o + EncodeText(space.name);
    o := o + Be(options.faultTolerance, 8);
    o := o + Be(|attrs|, 2);
    o := o + Be(|space.subspaces| + 1, 2);
    o := o + Be(0, 2);
    o := AppendAttributes(o, attrs);
    var sets := LegacyReplicaSets(serverIds, ReplicaCount(|serverIds|, options.faultTolerance), options.partitions);
    ghost var head := o;
    ghost var keySpec := RegionBoxes(roots, 1, options.partitions);
    ghost var keyStart := ids.nextId;
    var key := AppendSubspace(o, [0], roots, options.partitions, sets, ids);
    if key.None? {
      return None;
    }
    ghost var first := EncodeSubspace([0], keySpec.value, sets, keyStart).value;
    ghost var others := EncodeSubspaces(NamesOf(attrs), space.subspaces, roots, options.partitions, sets, ids.nextId);
    r := AppendSubspaces(key.value, NamesOf(attrs), space.subspaces, roots, options.partitions, sets, ids);
    if r.Some? {
      Assoc(head, first.bytes, others.value.bytes);
      SpaceLaidOut(out, id, space.name, options.faultTolerance, attrs, |space.subspaces| + 1, first.bytes + others.value.bytes);
    }
  }

  lemma SpaceLaidOut(out: Bytes, id: nat, name: string, tolerance: nat, attrs: seq<PackedAttribute>, subspaces: nat, body: Bytes)
    ensures out + Be(id, 8) + EncodeText(name) + Be(tolerance, 8) + Be(|attrs|, 2) + Be(subspaces, 2) + Be(0, 2)
        + Joined(attrs, EncodeAttribute) + body
      == out + SpaceBytes(id, name, tolerance, attrs, subspaces, body)
  {
    hide Be, EncodeText, Joined;
    var a, b, c, d, e, f, g := Be(id, 8), EncodeText(name), Be(tolerance, 8), Be(|attrs|, 2), Be(subspaces, 2), Be(0, 2),
                               Joined(attrs, EncodeAttribute);
    Assoc(out + a + b + c + d + e + f, g, body);
    Assoc(out + a + b + c + d + e, f, g + body);
    Assoc(out + a + b + c + d, e, f + (g + body));
    Assoc(out + a + b + c, d, e + (f + (g + body)));
    Assoc(out + a + b, c, d + (e + (f + (g + body))));
    Assoc(out + a, b, c + (d + (e + (f + (g + body)))));
    Assoc(out, a, b + (c + (d + (e + (f + (g + body))))));
  }
}
