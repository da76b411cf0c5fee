/** A packed space read by a client that needs all of it, regions, replicas and
    ids included: the bytes that the coordinator writes (crates/server,
    `encode_legacy_space`, `encode_legacy_subspace`), taken from the layout alone. */
module SpaceReader {
  import opened Arithmetic
  import opened Base
  import opened DataModel
  import opened Lists
  import opened PackedSpace
  import opened Regions
  import opened Routing
  import opened Wire
  import Utf8

  // ------------------------------------------------------------------ the reader

  datatype Pair = Pair(first: u64, second: u64)

  datatype WireRegion = WireRegion(id: nat, bounds: seq<Pair>, replicas: seq<Pair>)

  datatype WireSubspace = WireSubspace(id: nat, indexes: seq<u16>, regions: seq<WireRegion>)

  datatype WireAttribute = WireAttribute(name: Bytes, datatype_: nat)

  datatype WireSpace = WireSpace(id: nat, name: Bytes, tolerance: nat, attributes: seq<WireAttribute>, subspaces: seq<WireSubspace>)

  /** Two 8-byte numbers: a lower and an upper bound, or a server and the id of
      its replica. */
  function ReadPair(bytes: Bytes): (r: Option<Parsed<Pair>>)
    ensures r.Some? ==> r.value.used <= |bytes|
  {
    if |bytes| < 16 then None
    else
      BeOfFromBe(bytes[..8]);
      BeOfFromBe(bytes[8..][..8]);
      Widths();
      Some(Parsed(Pair(FromBe(bytes[..8]), FromBe(bytes[8..][..8])), 16))
  }

  function ReadRegion(bytes: Bytes): (r: Option<Parsed<WireRegion>>)
    ensures r.Some? ==> r.value.used <= |bytes|
  {
    if |bytes| < 11 then None
    else
      var id, dimensions, count := FromBe(bytes[..8]), FromBe(bytes[8..][..2]), bytes[10] as nat;
      var bounds :- DecodeItems(dimensions, bytes[11..], ReadPair);
      var replicas :- DecodeItems(count, bytes[11..][bounds.used..], ReadPair);
      Some(Parsed(WireRegion(id, bounds.value, replicas.value), 11 + bounds.used + replicas.used))
  }

  function ReadIndex(bytes: Bytes): (r: Option<Parsed<u16>>)
    ensures r.Some? ==> r.value.used <= |bytes|
  {
    var n :- ReadBe(bytes, 2);
    BeOfFromBe(bytes[..2]);
    Widths();
    Some(Parsed(n.value, 2))
  }

  function ReadSubspace(bytes: Bytes): (r: Option<Parsed<WireSubspace>>)
    ensures r.Some? ==> r.value.used <= |bytes|
  {
    if |bytes| < 14 then None
    else
      var id, width, count := FromBe(bytes[..8]), FromBe(bytes[8..][..2]), FromBe(bytes[10..][..4]);
      var indexes :- DecodeItems(width, bytes[14..], ReadIndex);
      var regions :- DecodeItems(count, bytes[14..][indexes.used..], ReadRegion);
      Some(Parsed(WireSubspace(id, indexes.value, regions.value), 14 + indexes.used + regions.used))
  }

  function ReadAttribute(bytes: Bytes): (r: Option<Parsed<WireAttribute>>)
    ensures r.Some? ==> r.value.used <= |bytes|
  {
    var name :- DecodeSlice(bytes);
    var code :- ReadBe(bytes[name.used..], 2);
    Some(Parsed(WireAttribute(name.value, code.value), name.used + 2))
  }

  function ReadWireSpace(bytes: Bytes): Option<WireSpace> {
    var id :- ReadBe(bytes, 8);
    var name :- DecodeSlice(bytes[8..]);
    var counts := bytes[8..][name.used..];
    if |counts| < 14 then None
    else
      var tolerance, attributes, subspaces := FromBe(counts[..8]), FromBe(counts[8..][..2]), FromBe(counts[10..][..2]);
      var attrs :- DecodeItems(attributes, counts[14..], ReadAttribute);
      var list :- DecodeItems(subspaces, counts[14..][attrs.used..], ReadSubspace);
      Some(WireSpace(id.value, name.value, tolerance, attrs.value, list.value))
  }

  // ------------------------------------------------------------- what is read

  /** A region with these bounds in every dimension and these servers in order. */
  predicate RegionHolds(r: WireRegion, box: Box, servers: seq<NodeId>)
    requires OnWire(box)
  {
    && |r.bounds| == |box.lower| && |r.replicas| == |servers|
    && (forall d :: 0 <= d < |box.lower| ==> r.bounds[d] == Pair(box.lower[d], box.upper[d]))
    && (forall j :: 0 <= j < |servers| ==> r.replicas[j].first == servers[j])
  }

  predicate SubspaceHolds(s: WireSubspace, indexes: seq<u16>, boxes: seq<Box>, sets: seq<seq<NodeId>>)
    requires AllOnWire(boxes, |indexes|)
  {
    s.indexes == indexes && RegionsHold(s.regions, boxes, 0, |indexes|, sets)
  }

  function RegionIds(regions: seq<WireRegion>): seq<nat> {
    if regions == [] then [] else [regions[0].id] + RegionIds(regions[1..])
  }

  function Seconds(pairs: seq<Pair>): seq<nat> {
    if pairs == [] then [] else [pairs[0].second] + Seconds(pairs[1..])
  }

  function ReplicaIds(regions: seq<WireRegion>): seq<nat> {
    if regions == [] then [] else Seconds(regions[0].replicas) + ReplicaIds(regions[1..])
  }

  /** The ids of a subspace: its own, its regions', and its replicas', region by
      region. */
  function SubspaceIds(s: WireSubspace): seq<nat> { [s.id] + RegionIds(s.regions) + ReplicaIds(s.regions) }

  function AllSubspaceIds(list: seq<WireSubspace>): seq<nat> {
    if list == [] then [] else SubspaceIds(list[0]) + AllSubspaceIds(list[1..])
  }

  /** `n` ids from `from` on, as 64-bit numbers. */
  function Counting(from: nat, n: nat): (ids: seq<nat>)
    ensures |ids| == n
  {
    seq(n, k requires 0 <= k < n => (from + k) % TWO_64)
  }

  lemma CountingOn(from: nat, m: nat, n: nat)
    ensures Counting(from, m) + Counting(from + m, n) == Counting(from, m + n)
  {
    var whole := Counting(from, m) + Counting(from + m, n);
    forall k | 0 <= k < m + n ensures whole[k] == Counting(from, m + n)[k] {
      if k >= m { assert whole[k] == Counting(from + m, n)[k - m]; }
    }
  }

  lemma CountingOne(from: nat)
    ensures Counting(from, 1) == [from % TWO_64]
  {
  }

  // --------------------------------------------------------------- numbers back

  /** Reading a number back gives what its bytes can hold of it. */
  lemma {:induction false} NumberBack(n: nat, width: nat)
    ensures Pow256(width) > 0 && FromBe(Be(n, width)) == n % Pow256(width)
  {
    if width > 0 {
      NumberBack(n / 256, width - 1);
      assert Be(n, width)[..width - 1] == Be(n / 256, width - 1);
      RemainderStep(n, Pow256(width - 1));
    }
  }

  lemma RemainderStep(n: nat, p: nat)
    requires p > 0
    ensures 256 * (n / 256 % p) + n % 256 == n % (256 * p)
  {
    var h := n / 256;
    var q := h / p;
    assert h == p * q + h % p && n == 256 * h + n % 256;
    var r := 256 * (h % p) + n % 256;
    assert n == (256 * p) * q + r;
    assert 0 <= r < 256 * p;
    QuotientIs(n, 256 * p, q, r);
  }

  lemma PairBack(a: nat, b: nat, rest: Bytes)
    ensures ReadPair(Be(a, 8) + Be(b, 8) + rest) == Some(Parsed(Pair(a % TWO_64, b % TWO_64), 16))
  {
    hide Be, FromBe;
    var bytes := Be(a, 8) + Be(b, 8) + rest;
    assert bytes[..8] == Be(a, 8) && bytes[8..][..8] == Be(b, 8);
    Widths();
    NumberBack(a, 8);
    NumberBack(b, 8);
  }

  function BoundsFrom(box: Box, i: nat): (pairs: seq<Pair>)
    requires OnWire(box) && i <= |box.lower|
  {
    seq(|box.lower| - i, d requires 0 <= d < |box.lower| - i => Pair(box.lower[i + d], box.upper[i + d]))
  }

  lemma PairThenMore(a: nat, b: nat, more: Bytes, rest: Bytes, count: nat, tail: seq<Pair>)
    requires DecodeItems(count, more + rest, ReadPair) == Some(Parsed(tail, |more|))
    ensures DecodeItems(count + 1, Be(a, 8) + Be(b, 8) + more + rest, ReadPair)
         == Some(Parsed([Pair(a % TWO_64, b % TWO_64)] + tail, 16 + |more|))
  {
    hide Be, ReadPair, DecodeItems;
    var pair := Be(a, 8) + Be(b, 8);
    PairBack(a, b, more + rest);
    Assoc(pair, more, rest);
    FirstItem(Pair(a % TWO_64, b % TWO_64), pair, more + rest, count, ReadPair, Parsed(tail, |more|));
  }

  lemma {:induction false} CoordinatesBack(box: Box, i: nat, rest: Bytes)
    requires OnWire(box) && i <= |box.lower|
    ensures DecodeItems(|box.lower| - i, Coordinates(box, i) + rest, ReadPair)
         == Some(Parsed(BoundsFrom(box, i), |Coordinates(box, i)|))
    decreases |box.lower| - i
  {
    hide Be, ReadPair, DecodeItems;
    if i == |box.lower| {
      NoItems(rest, ReadPair);
      assert Coordinates(box, i) + rest == rest && BoundsFrom(box, i) == [];
    } else {
      var l, u, more, tail := box.lower[i], box.upper[i], Coordinates(box, i + 1), BoundsFrom(box, i + 1);
      assert BoundsFrom(box, i) == [Pair(l, u)] + tail;
      CoordinatesBack(box, i + 1, rest);
      PairThenMore(l, u, more, rest, |box.lower| - i - 1, tail);
    }
  }

  lemma {:induction false} ReplicasBack(servers: seq<NodeId>, next: nat, rest: Bytes) returns (pairs: seq<Pair>)
    ensures DecodeItems(|servers|, Replicas(servers, next) + rest, ReadPair) == Some(Parsed(pairs, |Replicas(servers, next)|))
    ensures |pairs| == |servers| && Seconds(pairs) == Counting(next, |servers|)
    ensures forall j :: 0 <= j < |servers| ==> pairs[j].first == servers[j]
    decreases |servers|
  {
    hide Be, ReadPair, DecodeItems;
    if servers == [] {
      NoItems(rest, ReadPair);
      assert Replicas(servers, next) + rest == rest;
      pairs := [];
    } else {
      var s, more := servers[0], Replicas(servers[1..], next + 1);
      var tail := ReplicasBack(servers[1..], next + 1, rest);
      PairThenMore(s, next, more, rest, |servers| - 1, tail);
      pairs := [Pair(s, next % TWO_64)] + tail;
      assert pairs[1..] == tail;
      CountingOne(next);
      CountingOn(next, 1, |servers| - 1);
    }
  }

  // --------------------------------------------------------------- regions back

  lemma RegionLayout(box: Box, id: nat, servers: seq<NodeId>, next: nat, rest: Bytes)
    requires OnWire(box) && |box.lower| < 0x1_0000 && |servers| < 0x100
    ensures var bytes := EncodeRegion(box, id, servers, next) + rest;
      && |bytes| >= 11
      && FromBe(bytes[..8]) == id % TWO_64 && FromBe(bytes[8..][..2]) == |box.lower| && bytes[10] as nat == |servers|
      && bytes[11..] == Coordinates(box, 0) + (Replicas(servers, next) + rest)
  {
    hide Be, FromBe, Coordinates, Replicas, OnWire;
    var a, b, c, d, e := Be(id, 8), Be(|box.lower|, 2), [|servers| as byte], Coordinates(box, 0), Replicas(servers, next);
    var bytes := EncodeRegion(box, id, servers, next) + rest;
    Assoc(a, b + (c + (d + e)), rest);
    Assoc(b, c + (d + e), rest);
    Assoc(c, d + e, rest);
    Assoc(d, e, rest);
    assert bytes[0..] == bytes;
    Advance(bytes, 0, a, b + (c + (d + (e + rest))));
    Advance(bytes, 8, b, c + (d + (e + rest)));
    Advance(bytes, 10, c, d + (e + rest));
    assert bytes[..8] == a && bytes[8..][..2] == b && bytes[10] == bytes[10..][0] == c[0];
    Widths();
    NumberBack(id, 8);
    FromBeOfBe(|box.lower|, 2);
  }

  lemma RegionBack(box: Box, id: nat, servers: seq<NodeId>, next: nat, rest: Bytes) returns (r: WireRegion)
    requires OnWire(box) && |box.lower| < 0x1_0000 && |servers| < 0x100
    ensures var encoded := EncodeRegion(box, id, servers, next);
      ReadRegion(encoded + rest) == Some(Parsed(r, |encoded|))
    ensures RegionHolds(r, box, servers) && r.id == id % TWO_64 && Seconds(r.replicas) == Counting(next, |servers|)
  {
    hide Be, FromBe, Coordinates, Replicas, DecodeItems, OnWire, Counting, EncodeRegion, Seconds;
    RegionLayout(box, id, servers, next, rest);
    var bytes := EncodeRegion(box, id, servers, next) + rest;
    CoordinatesBack(box, 0, Replicas(servers, next) + rest);
    DropFront(Coordinates(box, 0), Replicas(servers, next) + rest);
    var pairs := ReplicasBack(servers, next, rest);
    r := WireRegion(id % TWO_64, BoundsFrom(box, 0), pairs);
  }

  lemma RegionThenMore(r: WireRegion, first: Bytes, more: Bytes, rest: Bytes, count: nat, tail: seq<WireRegion>)
    requires ReadRegion(first + (more + rest)) == Some(Parsed(r, |first|))
    requires DecodeItems(count, more + rest, ReadRegion) == Some(Parsed(tail, |more|))
    ensures DecodeItems(count + 1, first + more + rest, ReadRegion) == Some(Parsed([r] + tail, |first| + |more|))
  {
    hide ReadRegion, DecodeItems;
    Assoc(first, more, rest);
    FirstItem(r, first, more + rest, count, ReadRegion, Parsed(tail, |more|));
  }

  /** These regions carry ids from `firstId` on, and their replicas ids from
      `next` up to `end`. */
  predicate CountedFrom(rs: seq<WireRegion>, firstId: nat, next: nat, end: nat) {
    next <= end && RegionIds(rs) == Counting(firstId, |rs|) && ReplicaIds(rs) == Counting(next, end - next)
  }

  lemma CountedWithFirst(r: WireRegion, tail: seq<WireRegion>, firstId: nat, next: nat, count: nat, end: nat)
    requires r.id == firstId % TWO_64 && Seconds(r.replicas) == Counting(next, count)
    requires CountedFrom(tail, firstId + 1, next + count, end)
    ensures CountedFrom([r] + tail, firstId, next, end)
  {
    hide Counting, Seconds;
    assert ([r] + tail)[1..] == tail;
    CountingOne(firstId);
    CountingOn(firstId, 1, |tail|);
    CountingOn(next, count, end - next - count);
  }

  predicate RegionsRead(rs: seq<WireRegion>, count: nat, encoded: Encoded, rest: Bytes, firstId: nat, next: nat) {
    && DecodeItems(count, encoded.bytes + rest, ReadRegion) == Some(Parsed(rs, |encoded.bytes|))
    && CountedFrom(rs, firstId, next, encoded.next)
  }

  lemma NoneRead(rest: Bytes, firstId: nat, next: nat)
    ensures RegionsRead([], 0, Encoded([], next), rest, firstId, next)
  {
    NoItems(rest, ReadRegion);
    assert [] + rest == rest;
  }

  lemma ReadWithFirst(r: WireRegion, tail: seq<WireRegion>, first: Bytes, more: Encoded, rest: Bytes, count: nat,
                      firstId: nat, next: nat, servers: nat)
    requires ReadRegion(first + (more.bytes + rest)) == Some(Parsed(r, |first|))
    requires r.id == firstId % TWO_64 && Seconds(r.replicas) == Counting(next, servers)
    requires RegionsRead(tail, count, more, rest, firstId + 1, next + servers)
    ensures RegionsRead([r] + tail, count + 1, Encoded(first + more.bytes, more.next), rest, firstId, next)
  {
    hide ReadRegion, DecodeItems, CountedFrom, Seconds, Counting;
    RegionThenMore(r, first, more.bytes, rest, count, tail);
    CountedWithFirst(r, tail, firstId, next, servers, more.next);
  }

  /** Regions `i` and up, box by box and set by set. */
  predicate RegionsHold(rs: seq<WireRegion>, boxes: seq<Box>, i: nat, width: nat, sets: seq<seq<NodeId>>)
    requires AllOnWire(boxes, width)
  {
    i <= |boxes| && |rs| == |boxes| - i
    && forall k :: i <= k < |boxes| ==> OnWire(boxes[k]) && RegionHolds(rs[k - i], boxes[k], SetFor(sets, k, |boxes|))
  }

  lemma HoldWithFirst(r: WireRegion, tail: seq<WireRegion>, boxes: seq<Box>, i: nat, width: nat, sets: seq<seq<NodeId>>)
    requires AllOnWire(boxes, width) && i < |boxes| && RegionsHold(tail, boxes, i + 1, width, sets)
    requires OnWire(boxes[i]) && RegionHolds(r, boxes[i], SetFor(sets, i, |boxes|))
    ensures RegionsHold([r] + tail, boxes, i, width, sets)
  {
    hide AllOnWire, OnWire, RegionHolds, SetFor;
  }

  lemma BoxOnWire(boxes: seq<Box>, i: nat, width: nat)
    requires AllOnWire(boxes, width) && i < |boxes|
    ensures OnWire(boxes[i]) && |boxes[i].lower| == width
  {
    assert boxes[i] in boxes;
  }

  lemma {:induction false} RegionsBack(boxes: seq<Box>, i: nat, width: nat, firstId: nat, next: nat,
                                       sets: seq<seq<NodeId>>, rest: Bytes) returns (rs: seq<WireRegion>)
    requires AllOnWire(boxes, width) && i <= |boxes| && width < 0x1_0000
    requires EncodeRegions(boxes, i, width, firstId, next, sets).Some?
    ensures RegionsRead(rs, |boxes| - i, EncodeRegions(boxes, i, width, firstId, next, sets).value, rest, firstId + i, next)
    ensures RegionsHold(rs, boxes, i, width, sets)
    decreases |boxes| - i
  {
    hide EncodeRegion, ReadRegion, RegionsRead, RegionHolds, OnWire, AllOnWire, Counting, SetFor, Seconds;
    if i == |boxes| {
      NoneRead(rest, firstId + i, next);
      rs := [];
    } else {
      BoxOnWire(boxes, i, width);
      var servers := SetFor(sets, i, |boxes|);
      var first := EncodeRegion(boxes[i], firstId + i, servers, next);
      var more := EncodeRegions(boxes, i + 1, width, firstId, next + |servers|, sets).value;
      var tail := RegionsBack(boxes, i + 1, width, firstId, next + |servers|, sets, rest);
      var r := RegionBack(boxes[i], firstId + i, servers, next, more.bytes + rest);
      ReadWithFirst(r, tail, first, more, rest, |boxes| - i - 1, firstId + i, next, |servers|);
      hide RegionsHold;
      HoldWithFirst(r, tail, boxes, i, width, sets);
      rs := [r] + tail;
    }
  }

  // ------------------------------------------------------------- subspaces back

  lemma IndexesBack(indexes: seq<u16>, rest: Bytes)
    ensures var encoded := Joined(indexes, EncodeIndex);
      DecodeItems(|indexes|, encoded + rest, ReadIndex) == Some(Parsed(indexes, |encoded|))
  {
    forall i, r | 0 <= i < |indexes| ensures UndoesOne(indexes[i], EncodeIndex, ReadIndex, 0, r) {
      Widths();
      ReadBeOfBe(indexes[i], 2, r);
    }
    ItemsRoundTrip(indexes, EncodeIndex, ReadIndex, 0, rest);
  }

  lemma SubspaceLayoutFull(id: nat, indexes: seq<u16>, regions: nat, body: Bytes, rest: Bytes)
    requires |indexes| < 0x1_0000 && regions < 0x1_0000_0000
    ensures var bytes, list := SubspaceBytes(id, indexes, regions, body) + rest, Joined(indexes, EncodeIndex);
      && |bytes| >= 14 && |SubspaceBytes(id, indexes, regions, body)| == 14 + |list| + |body|
      && FromBe(bytes[..8]) == id % TWO_64 && FromBe(bytes[8..][..2]) == |indexes| && FromBe(bytes[10..][..4]) == regions
      && bytes[14..] == list + (body + rest)
  {
    hide Be, FromBe, Joined;
    SubspaceLayout(id, indexes, regions, body, rest);
    var a, bytes := Be(id, 8), SubspaceBytes(id, indexes, regions, body) + rest;
    assert bytes[..8] == a;
    Widths();
    NumberBack(id, 8);
  }

  lemma SubspaceBack(indexes: seq<u16>, boxes: seq<Box>, sets: seq<seq<NodeId>>, next: nat, rest: Bytes) returns (s: WireSubspace)
    requires AllOnWire(boxes, |indexes|) && EncodeSubspace(indexes, boxes, sets, next).Some?
    ensures var encoded := EncodeSubspace(indexes, boxes, sets, next).value;
      && ReadSubspace(encoded.bytes + rest) == Some(Parsed(s, |encoded.bytes|))
      && next <= encoded.next && SubspaceIds(s) == Counting(next, encoded.next - next)
    ensures SubspaceHolds(s, indexes, boxes, sets)
  {
    hide Be, FromBe, Joined, DecodeItems, EncodeRegions, AllOnWire, SubspaceBytes, ReadRegion, ReadIndex, RegionsHold, Counting,
         RegionIds, ReplicaIds;
    var regions := EncodeRegions(boxes, 0, |indexes|, next + 1, next + 1 + |boxes|, sets).value;
    var list := Joined(indexes, EncodeIndex);
    var rs := RegionsBack(boxes, 0, |indexes|, next + 1, next + 1 + |boxes|, sets, rest);
    SubspaceLayoutFull(next, indexes, |boxes|, regions.bytes, rest);
    IndexesBack(indexes, regions.bytes + rest);
    DropFront(list, regions.bytes + rest);
    s := WireSubspace(next % TWO_64, indexes, rs);
    assert |rs| == |boxes| by { HoldCounts(rs, boxes, 0, |indexes|, sets); }
    CountingOne(next);
    CountingOn(next, 1, |boxes|);
    CountingOn(next, 1 + |boxes|, regions.next - (next + 1 + |boxes|));
  }

  lemma HoldCounts(rs: seq<WireRegion>, boxes: seq<Box>, i: nat, width: nat, sets: seq<seq<NodeId>>)
    requires AllOnWire(boxes, width) && RegionsHold(rs, boxes, i, width, sets)
    ensures |rs| == |boxes| - i
  {
  }

  /** The subspaces of a schema, cut and numbered one after another. */
  predicate SubspacesHold(list: seq<WireSubspace>, names: seq<Name>, subspaces: seq<Subspace>, roots: Roots, partitions: u32,
                          sets: seq<seq<NodeId>>)
    requires |names| < 0x1_0000
  {
    |list| == |subspaces| && forall k :: 0 <= k < |list| ==> DimensionsHold(list[k], names, subspaces[k], roots, partitions, sets)
  }

  predicate DimensionsHold(s: WireSubspace, names: seq<Name>, subspace: Subspace, roots: Roots, partitions: u32,
                           sets: seq<seq<NodeId>>)
    requires |names| < 0x1_0000
  {
    var indexes := Positions(names, subspace.dimensions);
    indexes.Some?
    && var boxes := RegionBoxes(roots, |indexes.value|, partitions);
       boxes.Some? && SubspaceHolds(s, indexes.value, boxes.value, sets)
  }

  lemma SubspaceThenMore(s: WireSubspace, first: Encoded, more: Encoded, rest: Bytes, count: nat, list: seq<WireSubspace>, next: nat)
    requires ReadSubspace(first.bytes + (more.bytes + rest)) == Some(Parsed(s, |first.bytes|))
    requires next <= first.next && SubspaceIds(s) == Counting(next, first.next - next)
    requires SubspacesRead(list, count, more, rest, first.next)
    ensures SubspacesRead([s] + list, count + 1, Encoded(first.bytes + more.bytes, more.next), rest, next)
  {
    hide ReadSubspace, DecodeItems, SubspaceIds, Counting;
    Assoc(first.bytes, more.bytes, rest);
    FirstItem(s, first.bytes, more.bytes + rest, count, ReadSubspace, Parsed(list, |more.bytes|));
    assert ([s] + list)[1..] == list;
    CountingOn(next, first.next - next, more.next - first.next);
  }

  predicate SubspacesRead(list: seq<WireSubspace>, count: nat, encoded: Encoded, rest: Bytes, next: nat) {
    && DecodeItems(count, encoded.bytes + rest, ReadSubspace) == Some(Parsed(list, |encoded.bytes|))
    && next <= encoded.next && AllSubspaceIds(list) == Counting(next, encoded.next - next)
  }

  lemma NoSubspaceRead(rest: Bytes, next: nat)
    ensures SubspacesRead([], 0, Encoded([], next), rest, next)
  {
    NoItems(rest, ReadSubspace);
    assert [] + rest == rest;
  }

  lemma {:induction false} SubspacesBack(names: seq<Name>, subspaces: seq<Subspace>, roots: Roots, partitions: u32,
                                         sets: seq<seq<NodeId>>, next: nat, rest: Bytes) returns (list: seq<WireSubspace>)
    requires |names| < 0x1_0000 && EncodeSubspaces(names, subspaces, roots, partitions, sets, next).Some?
    ensures SubspacesRead(list, |subspaces|, EncodeSubspaces(names, subspaces, roots, partitions, sets, next).value, rest, next)
    ensures SubspacesHold(list, names, subspaces, roots, partitions, sets)
    decreases |subspaces|
  {
    hide EncodeSubspace, ReadSubspace, Positions, RegionBoxes, AllOnWire, SubspaceHolds, SubspacesRead, SubspaceIds, Counting;
    if subspaces == [] {
      NoSubspaceRead(rest, next);
      list := [];
    } else {
      var indexes := Positions(names, subspaces[0].dimensions).value;
      var boxes := RegionBoxes(roots, |indexes|, partitions).value;
      var first := EncodeSubspace(indexes, boxes, sets, next).value;
      var more := EncodeSubspaces(names, subspaces[1..], roots, partitions, sets, first.next).value;
      var s := SubspaceBack(indexes, boxes, sets, next, more.bytes + rest);
      var tail := SubspacesBack(names, subspaces[1..], roots, partitions, sets, first.next, rest);
      SubspaceThenMore(s, first, more, rest, |subspaces| - 1, tail, next);
      list := [s] + tail;
      assert DimensionsHold(s, names, subspaces[0], roots, partitions, sets);
      hide DimensionsHold;
    }
  }

  // ----------------------------------------------------------- whole spaces back

  function WireOf(a: PackedAttribute): WireAttribute { WireAttribute(Utf8.Encode(a.name), a.datatype_) }

  predicate AllShort(attrs: seq<PackedAttribute>) { forall a :: a in attrs ==> ShortText(a.name) }

  lemma AttributeBack(a: PackedAttribute, rest: Bytes)
    requires ShortText(a.name)
    ensures ReadAttribute(EncodeAttribute(a) + rest) == Some(Parsed(WireOf(a), |EncodeAttribute(a)|))
  {
    hide Slice, DecodeSlice, Utf8.Encode, Be, ReadBe;
    var name, code := EncodeText(a.name), Be(a.datatype_, 2);
    Assoc(name, code, rest);
    SliceRoundTrip(Utf8.Encode(a.name), code + rest);
    DropFront(name, code + rest);
    Widths();
    ReadBeOfBe(a.datatype_, 2, rest);
  }

  function WireTable(attrs: seq<PackedAttribute>): (table: seq<WireAttribute>)
    ensures |table| == |attrs| && forall i :: 0 <= i < |attrs| ==> table[i] == WireOf(attrs[i])
  {
    seq(|attrs|, i requires 0 <= i < |attrs| => WireOf(attrs[i]))
  }

  lemma {:induction false} TableBack(attrs: seq<PackedAttribute>, rest: Bytes)
    requires AllShort(attrs)
    ensures var encoded := Joined(attrs, EncodeAttribute);
      DecodeItems(|attrs|, encoded + rest, ReadAttribute) == Some(Parsed(WireTable(attrs), |encoded|))
    decreases |attrs|
  {
    hide EncodeAttribute, ReadAttribute, WireOf, DecodeItems, ShortText;
    if attrs == [] {
      NoItems(rest, ReadAttribute);
      assert Joined(attrs, EncodeAttribute) + rest == rest;
    } else {
      assert attrs[0] in attrs;
      var first, more := EncodeAttribute(attrs[0]), Joined(attrs[1..], EncodeAttribute);
      AttributeBack(attrs[0], more + rest);
      TableBack(attrs[1..], rest);
      Assoc(first, more, rest);
      FirstItem(WireOf(attrs[0]), first, more + rest, |attrs| - 1, ReadAttribute, Parsed(WireTable(attrs[1..]), |more|));
      assert WireTable(attrs) == [WireOf(attrs[0])] + WireTable(attrs[1..]);
    }
  }

  lemma SpaceLayout(id: nat, name: string, tolerance: nat, attrs: seq<PackedAttribute>, subspaces: nat, body: Bytes)
    requires ShortText(name) && tolerance < TWO_64 && |attrs| < 0x1_0000 && subspaces < 0x1_0000
    ensures var bytes := SpaceBytes(id, name, tolerance, attrs, subspaces, body);
      && ReadBe(bytes, 8) == Some(Parsed(id % TWO_64, 8))
      && DecodeSlice(bytes[8..]) == Some(Parsed(Utf8.Encode(name), |EncodeText(name)|))
      && var counts := bytes[8..][|EncodeText(name)|..];
         && |counts| >= 14
         && FromBe(counts[..8]) == tolerance && FromBe(counts[8..][..2]) == |attrs| && FromBe(counts[10..][..2]) == subspaces
         && counts[14..] == Joined(attrs, EncodeAttribute) + body
  {
    hide Slice, DecodeSlice, Utf8.Encode, Be, FromBe, Joined;
    var lists := Joined(attrs, EncodeAttribute) + body;
    var counts := Be(tolerance, 8) + (Be(|attrs|, 2) + (Be(subspaces, 2) + (Be(0, 2) + lists)));
    var bytes := SpaceBytes(id, name, tolerance, attrs, subspaces, body);
    Widths();
    NumberBack(id, 8);
    assert bytes[..8] == Be(id, 8);
    DropFront(Be(id, 8), EncodeText(name) + counts);
    SliceRoundTrip(Utf8.Encode(name), counts);
    DropFront(EncodeText(name), counts);
    assert counts[..8] == Be(tolerance, 8);
    FromBeOfBe(tolerance, 8);
    DropFront(Be(tolerance, 8), Be(|attrs|, 2) + (Be(subspaces, 2) + (Be(0, 2) + lists)));
    FieldAt(counts, 8, |attrs|, 2, Be(subspaces, 2) + (Be(0, 2) + lists));
    FieldAt(counts, 10, subspaces, 2, Be(0, 2) + lists);
    Advance(counts, 12, Be(0, 2), lists);
  }

  lemma {:induction false} CodesAt(attributes: seq<AttributeDefinition>, k: nat)
    requires Codes(attributes).Some? && k < |attributes|
    ensures HyperDatatype(attributes[k].kind).Some?
    ensures Codes(attributes).value[k] == PackedAttribute(attributes[k].name, HyperDatatype(attributes[k].kind).value)
  {
    if k > 0 { CodesAt(attributes[1..], k - 1); }
  }

  /** The attribute table: the key, as a string, and then the schema's
      attributes under the codes of their kinds. */
  predicate AttributesHold(table: seq<WireAttribute>, space: Space) {
    && |table| == 1 + |space.attributes|
    && table[0] == WireAttribute(Utf8.Encode(space.keyAttribute), 9217)
    && forall k :: 0 <= k < |space.attributes| ==> AttributeHolds(table[k + 1], space.attributes[k])
  }

  predicate AttributeHolds(a: WireAttribute, definition: AttributeDefinition) {
    a.name == Utf8.Encode(definition.name) && HyperDatatype(definition.kind) == Some(a.datatype_)
  }

  lemma TableHolds(space: Space)
    requires AttributeTable(space).Some?
    ensures AttributesHold(WireTable(AttributeTable(space).value), space)
  {
    hide Codes, HyperDatatype, Utf8.Encode;
    var attrs := AttributeTable(space).value;
    forall k | 0 <= k < |space.attributes| ensures AttributeHolds(WireTable(attrs)[k + 1], space.attributes[k]) {
      CodesAt(space.attributes, k);
    }
  }

  function SetsOf(space: Space, serverIds: seq<NodeId>): seq<seq<NodeId>> {
    ReplicaSets(serverIds, ReplicaCount(|serverIds|, space.options.faultTolerance), space.options.partitions)
  }

  /** What a client reads from the packed form of a space. */
  predicate SpaceHolds(w: WireSpace, space: Space, serverIds: seq<NodeId>, roots: Roots)
  {
    var attrs, keyBoxes := AttributeTable(space), RegionBoxes(roots, 1, space.options.partitions);
    && attrs.Some? && |attrs.value| < 0x1_0000
    && w.name == Utf8.Encode(space.name) && w.tolerance == space.options.faultTolerance
    && AttributesHold(w.attributes, space)
    && w.subspaces != [] && keyBoxes.Some? && SubspaceHolds(w.subspaces[0], [0], keyBoxes.value, SetsOf(space, serverIds))
    && SubspacesHold(w.subspaces[1..], NamesOf(attrs.value), space.subspaces, roots, space.options.partitions,
                     SetsOf(space, serverIds))
  }

  /** Every packed space is read back, with all its regions, bounds, replicas in
      their order, and with the ids handed out one after another. */
  lemma WholeSpaceBack(space: Space, serverIds: seq<NodeId>, roots: Roots, next: nat)
    requires EncodeSpace(space, serverIds, roots, next).Some?
    ensures ReadWireSpace(EncodeSpace(space, serverIds, roots, next).value.bytes).Some?
    ensures var encoded := EncodeSpace(space, serverIds, roots, next).value;
      var w := ReadWireSpace(encoded.bytes).value;
      && SpaceHolds(w, space, serverIds, roots)
      && next <= encoded.next && [w.id] + AllSubspaceIds(w.subspaces) == Counting(next, encoded.next - next)
  {
    hide AttributeTable, ReplicaSets, RegionBoxes, EncodeSubspace, EncodeSubspaces, SpaceBytes, NamesOf, ReplicaCount, ShortText,
         Joined, EncodeAttribute, FromBe, ReadBe, DecodeSlice, Utf8.Encode, EncodeText, ReadSubspace, ReadAttribute, SubspaceHolds,
         SubspacesHold, AttributesHold, WireTable, Counting, SubspaceIds, DecodeItems, AllOnWire;
    var attrs := AttributeTable(space).value;
    var partitions, sets := space.options.partitions, SetsOf(space, serverIds);
    var boxes := RegionBoxes(roots, 1, partitions).value;
    var key := EncodeSubspace([0], boxes, sets, next + 1).value;
    var others := EncodeSubspaces(NamesOf(attrs), space.subspaces, roots, partitions, sets, key.next).value;
    SpaceLayout(next, space.name, space.options.faultTolerance, attrs, |space.subspaces| + 1, key.bytes + others.bytes);
    TableBack(attrs, key.bytes + others.bytes);
    DropFront(Joined(attrs, EncodeAttribute), key.bytes + others.bytes);
    TableHolds(space);
    var first := SubspaceBack([0], boxes, sets, next + 1, others.bytes + []);
    var rest := SubspacesBack(NamesOf(attrs), space.subspaces, roots, partitions, sets, key.next, []);
    SubspaceThenMore(first, key, others, [], |space.subspaces|, rest, next + 1);
    assert key.bytes + others.bytes + [] == key.bytes + others.bytes;
    assert ([first] + rest)[1..] == rest;
    CountingOne(next);
    CountingOn(next, 1, others.next - (next + 1));
  }
}
