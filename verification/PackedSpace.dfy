/** The packed form of a space: the coordinator writes it (crates/server), the
    admin client reads it (crates/hyperdex-admin-protocol). */
module PackedSpace {
  import opened Arithmetic
  import opened Base
  import opened CutDimensions
  import opened DataModel
  import opened Lists
  import opened Regions
  import opened Routing
  import opened Wire
  import Utf8

  // ------------------------------------------------------------- datatype codes

  const STRING_CODE: u16 := 9217
  const LIST_CODES: u16 := 9280
  const SET_CODES: u16 := 9344
  const MAP_CODES: u16 := 9408
  const TIMESTAMP_CODES: u16 := 9472
  const SECRET_CODE: u16 := 9664
  const SECRET_NAME: string := "__secret"

  /** The three bits that tell primitives apart inside a container's code. */
  function PrimitiveBits(kind: ValueKind): (r: Option<nat>)
    ensures r.Some? ==> r.value < 8
  {
    match kind
    case KBytes => Some(0)
    case KString => Some(1)
    case KInt => Some(2)
    case KFloat => Some(3)
    case KDocument => Some(7)
    case _ => None
  }

  function PrimitiveOf(bits: nat): Option<ValueKind> {
    match bits
    case 0 => Some(KBytes)
    case 1 => Some(KString)
    case 2 => Some(KInt)
    case 3 => Some(KFloat)
    case 7 => Some(KDocument)
    case _ => None
  }

  function HyperDatatype(kind: ValueKind): Option<u16> {
    match kind
    case KBool => None
    case KInt => Some(9218)
    case KFloat => Some(9219)
    case KBytes => Some(9216)
    case KString => Some(9217)
    case KDocument => Some(9223)
    case KTimestamp(unit) => Some(TIMESTAMP_CODES + UnitCode(unit))
    case KList(elem) =>
      var bits :- PrimitiveBits(elem);
      Some(LIST_CODES + bits)
    case KSet(elem) =>
      var bits :- PrimitiveBits(elem);
      Some(SET_CODES + bits)
    case KMap(key, value) =>
      var keyBits :- PrimitiveBits(key);
      var valueBits :- PrimitiveBits(value);
      Some(MAP_CODES + 8 * keyBits + valueBits)
  }

  function UnitCode(unit: TimeUnit): nat {
    match unit
    case Second => 0
    case Minute => 2
    case Hour => 3
    case Day => 4
    case Week => 5
    case Month => 6
  }

  function UnitOf(code: nat): Option<TimeUnit> {
    match code
    case 0 => Some(Second)
    case 1 => Some(Second)
    case 2 => Some(Minute)
    case 3 => Some(Hour)
    case 4 => Some(Day)
    case 5 => Some(Week)
    case 6 => Some(Month)
    case _ => None
  }

  /** The reader has no code for a plain byte string. */
  function KindOf(code: u16): Option<ValueKind> {
    if code == 9217 then Some(KString)
    else if code == 9218 then Some(KInt)
    else if code == 9219 then Some(KFloat)
    else if code == 9223 then Some(KDocument)
    else if LIST_CODES <= code < SET_CODES then
      var elem :- PrimitiveOf(code % 8);
      Some(KList(elem))
    else if SET_CODES <= code < MAP_CODES then
      var elem :- PrimitiveOf(code % 8);
      Some(KSet(elem))
    else if MAP_CODES <= code < TIMESTAMP_CODES then
      var key :- PrimitiveOf(code / 8 % 8);
      var value :- PrimitiveOf(code % 8);
      Some(KMap(key, value))
    else if TIMESTAMP_CODES <= code < SECRET_CODE then
      var unit :- UnitOf(code - TIMESTAMP_CODES);
      Some(KTimestamp(unit))
    else None
  }

  lemma BitsRoundTrip(kind: ValueKind)
    requires PrimitiveBits(kind).Some?
    ensures PrimitiveOf(PrimitiveBits(kind).value) == Some(kind)
  {
  }

  /** Every kind that has a code is read back from it, except the byte string. */
  lemma KindRoundTrip(kind: ValueKind)
    requires HyperDatatype(kind).Some?
    ensures KindOf(HyperDatatype(kind).value) == if kind.KBytes? then None else Some(kind)
    ensures HyperDatatype(kind).value < SECRET_CODE
  {
    hide PrimitiveBits, PrimitiveOf;
    if kind.KList? || kind.KSet? {
      BitsRoundTrip(kind.elem);
      var bits := PrimitiveBits(kind.elem).value;
      assert (LIST_CODES + bits) % 8 == bits && (SET_CODES + bits) % 8 == bits;
    } else if kind.KMap? {
      BitsRoundTrip(kind.key);
      BitsRoundTrip(kind.value);
      MapCodeSplits(PrimitiveBits(kind.key).value, PrimitiveBits(kind.value).value);
    }
  }

  lemma MapCodeSplits(key: nat, value: nat)
    requires key < 8 && value < 8
    ensures var code := MAP_CODES + 8 * key + value;
      MAP_CODES <= code < TIMESTAMP_CODES && code / 8 % 8 == key && code % 8 == value
  {
  }

  // ------------------------------------------------------------------ attributes

  datatype PackedAttribute = PackedAttribute(name: Name, datatype_: u16)

  function Codes(attributes: seq<AttributeDefinition>): (r: Option<seq<PackedAttribute>>)
    ensures r.Some? ==> |r.value| == |attributes|
  {
    if attributes == [] then Some([])
    else
      var code :- HyperDatatype(attributes[0].kind);
      var rest :- Codes(attributes[1..]);
      Some([PackedAttribute(attributes[0].name, code)] + rest)
  }

  function EncodeText(text: string): Bytes { Slice(Utf8.Encode(text)) }

  function ReadText(bytes: Bytes): (r: Option<Parsed<string>>)
    ensures r.Some? ==> r.value.used <= |bytes|
  {
    var slice :- DecodeSlice(bytes);
    var text :- Utf8.Decode(slice.value);
    Some(Parsed(text, slice.used))
  }

  predicate ShortText(text: string) { |Utf8.Encode(text)| < TWO_64 }

  lemma TextReadBack(text: string, rest: Bytes)
    requires ShortText(text)
    ensures ReadText(EncodeText(text) + rest) == Some(Parsed(text, |EncodeText(text)|))
  {
    hide Slice, DecodeSlice, Utf8.Encode, Utf8.Decode;
    SliceRoundTrip(Utf8.Encode(text), rest);
    Utf8.TextRoundTrip(text);
  }

  function EncodeAttribute(a: PackedAttribute): Bytes { EncodeText(a.name) + Be(a.datatype_, 2) }

  /** Only the authorization attribute may carry the secret's datatype. */
  function DecodeAttribute(bytes: Bytes): (r: Option<Parsed<PackedAttribute>>)
    ensures r.Some? ==> r.value.used <= |bytes|
  {
    var name :- ReadText(bytes);
    var code :- ReadBe(bytes[name.used..], 2);
    BeOfFromBe(bytes[name.used..][..2]);
    Widths();
    if code.value == SECRET_CODE && name.value != SECRET_NAME then None
    else Some(Parsed(PackedAttribute(name.value, code.value), name.used + 2))
  }

  predicate PlainAttribute(a: PackedAttribute) { ShortText(a.name) && a.datatype_ < SECRET_CODE }

  lemma AttributeReadBack(a: PackedAttribute, rest: Bytes)
    requires PlainAttribute(a)
    ensures DecodeAttribute(EncodeAttribute(a) + rest) == Some(Parsed(a, |EncodeAttribute(a)|))
  {
    hide EncodeText, ReadText, ReadBe, Be, ShortText;
    var name, code := EncodeText(a.name), Be(a.datatype_, 2);
    Assoc(name, code, rest);
    TextReadBack(a.name, code + rest);
    DropFront(name, code + rest);
    Widths();
    ReadBeOfBe(a.datatype_, 2, rest);
  }

  lemma DropFront<T>(front: seq<T>, rest: seq<T>)
    ensures (front + rest)[|front|..] == rest
  {
  }

  // --------------------------------------------------------------------- regions

  predicate OnWire(box: Box) {
    |box.lower| == |box.upper|
    && forall i :: 0 <= i < |box.lower| ==> 0 <= box.lower[i] < TWO_64 && 0 <= box.upper[i] < TWO_64
  }

  predicate AllOnWire(boxes: seq<Box>, width: nat) { forall b :: b in boxes ==> OnWire(b) && |b.lower| == width }

  function Coordinates(box: Box, i: nat): (b: Bytes)
    requires OnWire(box) && i <= |box.lower|
    ensures |b| == 16 * (|box.lower| - i)
    decreases |box.lower| - i
  {
    if i == |box.lower| then [] else Be(box.lower[i], 8) + Be(box.upper[i], 8) + Coordinates(box, i + 1)
  }

  /** Each server of a replica set with a fresh id of its own. */
  function Replicas(servers: seq<NodeId>, next: nat): (b: Bytes)
    ensures |b| == 16 * |servers|
  {
    if servers == [] then [] else Be(servers[0], 8) + Be(next, 8) + Replicas(servers[1..], next + 1)
  }

  function EncodeRegion(box: Box, id: nat, servers: seq<NodeId>, next: nat): (b: Bytes)
    requires OnWire(box) && |servers| < 0x100
    ensures |b| == 11 + 16 * |box.lower| + 16 * |servers|
  {
    Be(id, 8) + (Be(|box.lower|, 2) + ([|servers| as byte] + (Coordinates(box, 0) + Replicas(servers, next))))
  }

  /** The reader skips a region: it only needs its size. */
  function DecodeRegion(bytes: Bytes): (r: Option<Parsed<()>>)
    ensures r.Some? ==> r.value.used <= |bytes|
  {
    if |bytes| < 11 then None
    else
      var end := 11 + 16 * FromBe(bytes[8..10]) + 16 * bytes[10] as nat;
      if |bytes| < end then None else Some(Parsed((), end))
  }

  lemma RegionSkipped(box: Box, id: nat, servers: seq<NodeId>, next: nat, rest: Bytes)
    requires OnWire(box) && |box.lower| < 0x1_0000 && |servers| < 0x100
    ensures var encoded := EncodeRegion(box, id, servers, next);
      DecodeRegion(encoded + rest) == Some(Parsed((), |encoded|))
  {
    hide Be, FromBe, Coordinates, Replicas;
    var encoded := EncodeRegion(box, id, servers, next);
    var body := [|servers| as byte] + (Coordinates(box, 0) + Replicas(servers, next));
    var bytes := encoded + rest;
    assert bytes[8..10] == encoded[8..10];
    DropFront(Be(id, 8), Be(|box.lower|, 2) + body);
    assert encoded[8..10] == encoded[8..][..2] == Be(|box.lower|, 2);
    assert bytes[10] == encoded[10] == encoded[8..][2] == body[0];
    Widths();
    FromBeOfBe(|box.lower|, 2);
  }

  datatype Encoded = Encoded(bytes: Bytes, next: nat)

  function SetFor(sets: seq<seq<NodeId>>, i: nat, total: nat): seq<NodeId>
    requires i < total
  {
    if sets == [] then []
    else
      ChosenSetInRange(i, |sets|, total);
      sets[i * |sets| / total]
  }

  /** Regions `i` and up: their own ids were given out before, their replicas'
      ids start at `next`. */
  function EncodeRegions(boxes: seq<Box>, i: nat, width: nat, firstId: nat, next: nat, sets: seq<seq<NodeId>>): (r: Option<Encoded>)
    requires AllOnWire(boxes, width) && i <= |boxes|
    decreases |boxes| - i
  {
    if i == |boxes| then Some(Encoded([], next))
    else
      var servers := SetFor(sets, i, |boxes|);
      if |servers| >= 0x100 then None
      else
        assert boxes[i] in boxes;
        var rest :- EncodeRegions(boxes, i + 1, width, firstId, next + |servers|, sets);
        Some(Encoded(EncodeRegion(boxes[i], firstId + i, servers, next) + rest.bytes, rest.next))
  }

  lemma {:induction false} RegionsSkipped(boxes: seq<Box>, i: nat, width: nat, firstId: nat, next: nat,
                                          sets: seq<seq<NodeId>>, rest: Bytes)
    requires AllOnWire(boxes, width) && i <= |boxes| && width < 0x1_0000
    requires EncodeRegions(boxes, i, width, firstId, next, sets).Some?
    ensures var encoded := EncodeRegions(boxes, i, width, firstId, next, sets).value.bytes;
      var r := DecodeItems(|boxes| - i, encoded + rest, DecodeRegion);
      r.Some? && r.value.used == |encoded|
    decreases |boxes| - i
  {
    hide EncodeRegion, DecodeRegion, OnWire;
    if i == |boxes| {
      assert [] + rest == rest;
    } else {
      var servers := SetFor(sets, i, |boxes|);
      assert boxes[i] in boxes;
      var first := EncodeRegion(boxes[i], firstId + i, servers, next);
      var more := EncodeRegions(boxes, i + 1, width, firstId, next + |servers|, sets).value.bytes;
      RegionSkipped(boxes[i], firstId + i, servers, next, more + rest);
      RegionsSkipped(boxes, i + 1, width, firstId, next + |servers|, sets, rest);
      Assoc(first, more, rest);
      DropFront(first, more + rest);
    }
  }

  lemma {:induction false} BoxesOnWire(dimensions: seq<nat>, lower: seq<int>, upper: seq<int>)
    requires Cuttable(dimensions) && OnWire(Box(lower, upper))
    ensures AllOnWire(Boxes(dimensions, lower, upper), |lower| + |dimensions|)
    decreases |dimensions|, 0, 0
  {
    hide OnWire;
    if dimensions != [] { BoxesFromOnWire(dimensions, 0, lower, upper); }
  }

  lemma {:induction false} BoxesFromOnWire(dimensions: seq<nat>, i: nat, lower: seq<int>, upper: seq<int>)
    requires dimensions != [] && Cuttable(dimensions) && OnWire(Box(lower, upper)) && i <= dimensions[0]
    ensures AllOnWire(BoxesFrom(dimensions, i, lower, upper), |lower| + |dimensions|)
    decreases |dimensions| - 1, 1, dimensions[0] - i
  {
    var k := dimensions[0];
    if i < k {
      var l, u := LowerPoint(k, i), UpperPoint(k, i);
      LowerPointInRange(k, i);
      if i + 1 < k { LowerPointInRange(k, i + 1); }
      ExtendOnWire(lower, upper, l, u);
      hide OnWire, LowerPoint, UpperPoint;
      BoxesOnWire(dimensions[1..], lower + [l], upper + [u]);
      BoxesFromOnWire(dimensions, i + 1, lower, upper);
    }
  }

  lemma ExtendOnWire(lower: seq<int>, upper: seq<int>, l: int, u: int)
    requires OnWire(Box(lower, upper)) && 0 <= l < TWO_64 && 0 <= u < TWO_64
    ensures OnWire(Box(lower + [l], upper + [u]))
  {
  }

  // ------------------------------------------------------------------- subspaces

  function EncodeIndex(n: u16): Bytes { Be(n, 2) }

  function EncodeSubspace(indexes: seq<u16>, boxes: seq<Box>, sets: seq<seq<NodeId>>, next: nat): Option<Encoded>
    requires AllOnWire(boxes, |indexes|)
  {
    if |indexes| >= 0x1_0000 || |boxes| >= 0x1_0000_0000 then None
    else
      var regions :- EncodeRegions(boxes, 0, |indexes|, next + 1, next + 1 + |boxes|, sets);
      Some(Encoded(SubspaceBytes(next, indexes, |boxes|, regions.bytes), regions.next))
  }

  function SubspaceBytes(id: nat, indexes: seq<u16>, regions: nat, body: Bytes): Bytes {
    Be(id, 8) + (Be(|indexes|, 2) + (Be(regions, 4) + (Joined(indexes, EncodeIndex) + body)))
  }

  datatype PackedSubspace = PackedSubspace(indexes: seq<u16>, regions: nat)

  function DecodeIndex(attributes: nat, bytes: Bytes): (r: Option<Parsed<u16>>)
    ensures r.Some? ==> r.value.used <= |bytes| && r.value.value < attributes
  {
    var n :- ReadBe(bytes, 2);
    BeOfFromBe(bytes[..2]);
    Widths();
    if n.value >= attributes then None else Some(Parsed(n.value, 2))
  }

  function IndexDecoder(attributes: nat): Decoder<u16> { (bytes: Bytes) => DecodeIndex(attributes, bytes) }

  /** Every subspace must have the number of regions of the first. */
  function DecodeSubspace(attributes: nat, expected: Option<nat>, bytes: Bytes): (r: Option<Parsed<PackedSubspace>>)
    ensures r.Some? ==> r.value.used <= |bytes| && IndexesBelow(r.value.value.indexes, attributes)
  {
    if |bytes| < 14 then None
    else
      var width, regions := FromBe(bytes[8..][..2]), FromBe(bytes[10..][..4]);
      if expected.Some? && expected.value != regions then None
      else
        var lists :- SubspaceLists(attributes, width, regions, bytes[14..]);
        Some(Parsed(lists.value, 14 + lists.used))
  }

  function SubspaceLists(attributes: nat, width: nat, regions: nat, bytes: Bytes): (r: Option<Parsed<PackedSubspace>>)
    ensures r.Some? ==> r.value.used <= |bytes| && IndexesBelow(r.value.value.indexes, attributes)
  {
    var indexes :- DecodeItems(width, bytes, IndexDecoder(attributes));
    var skipped :- DecodeItems(regions, bytes[indexes.used..], DecodeRegion);
    DecodedIndexesBelow(width, attributes, bytes);
    Some(Parsed(PackedSubspace(indexes.value, regions), indexes.used + skipped.used))
  }

  predicate IndexesBelow(indexes: seq<u16>, attributes: nat) { forall i :: i in indexes ==> i < attributes }

  lemma {:induction false} DecodedIndexesBelow(count: nat, attributes: nat, bytes: Bytes)
    requires DecodeItems(count, bytes, IndexDecoder(attributes)).Some?
    ensures IndexesBelow(DecodeItems(count, bytes, IndexDecoder(attributes)).value.value, attributes)
  {
    if count > 0 {
      var first := DecodeIndex(attributes, bytes).value;
      DecodedIndexesBelow(count - 1, attributes, bytes[first.used..]);
    }
  }

  lemma IndexReadBack(n: u16, attributes: nat, rest: Bytes)
    requires n < attributes
    ensures DecodeIndex(attributes, EncodeIndex(n) + rest) == Some(Parsed(n, 2))
  {
    hide Be, ReadBe;
    Widths();
    ReadBeOfBe(n, 2, rest);
  }

  lemma IndexesReadBack(indexes: seq<u16>, attributes: nat, rest: Bytes)
    requires IndexesBelow(indexes, attributes)
    ensures var encoded := Joined(indexes, EncodeIndex);
      DecodeItems(|indexes|, encoded + rest, IndexDecoder(attributes)) == Some(Parsed(indexes, |encoded|))
  {
    forall i, r | 0 <= i < |indexes| ensures UndoesOne(indexes[i], EncodeIndex, IndexDecoder(attributes), 0, r) {
      assert indexes[i] in indexes;
      IndexReadBack(indexes[i], attributes, r);
    }
    ItemsRoundTrip(indexes, EncodeIndex, IndexDecoder(attributes), 0, rest);
  }

  /** A subspace is read back, ids and region contents aside, unless its number
      of regions is not the expected one. */
  lemma SubspaceReadBack(indexes: seq<u16>, boxes: seq<Box>, sets: seq<seq<NodeId>>, next: nat,
                         attributes: nat, expected: Option<nat>, rest: Bytes)
    requires AllOnWire(boxes, |indexes|) && IndexesBelow(indexes, attributes)
    requires EncodeSubspace(indexes, boxes, sets, next).Some?
    ensures var encoded := EncodeSubspace(indexes, boxes, sets, next).value.bytes;
      DecodeSubspace(attributes, expected, encoded + rest)
      == if expected.Some? && expected.value != |boxes| then None
         else Some(Parsed(PackedSubspace(indexes, |boxes|), |encoded|))
  {
    hide Be, FromBe, Joined, DecodeItems, EncodeRegions, AllOnWire, IndexesBelow, DecodeSubspace, SubspaceBytes, IndexDecoder,
         DecodeRegion;
    var regions := EncodeRegions(boxes, 0, |indexes|, next + 1, next + 1 + |boxes|, sets).value;
    var list := Joined(indexes, EncodeIndex);
    IndexesReadBack(indexes, attributes, regions.bytes + rest);
    RegionsSkipped(boxes, 0, |indexes|, next + 1, next + 1 + |boxes|, sets, rest);
    SubspaceLayout(next, indexes, |boxes|, regions.bytes, rest);
    var bytes := SubspaceBytes(next, indexes, |boxes|, regions.bytes) + rest;
    DropFront(list, regions.bytes + rest);
    var skipped := DecodeItems(|boxes|, regions.bytes + rest, DecodeRegion).value;
    SubspaceOfParts(bytes, attributes, expected, |indexes|, |boxes|, Parsed(indexes, |list|), skipped);
  }

  /** Where the fixed fields and the two lists of a subspace lie. */
  lemma SubspaceLayout(id: nat, indexes: seq<u16>, regions: nat, body: Bytes, rest: Bytes)
    requires |indexes| < 0x1_0000 && regions < 0x1_0000_0000
    ensures var encoded := SubspaceBytes(id, indexes, regions, body);
      var bytes, list := encoded + rest, Joined(indexes, EncodeIndex);
      && |encoded| == 14 + |list| + |body|
      && FromBe(bytes[8..][..2]) == |indexes| && FromBe(bytes[10..][..4]) == regions
      && bytes[14..] == list + (body + rest)
  {
    hide Be, FromBe, Joined;
    var a, b, c, list := Be(id, 8), Be(|indexes|, 2), Be(regions, 4), Joined(indexes, EncodeIndex);
    var bytes := SubspaceBytes(id, indexes, regions, body) + rest;
    Assoc(a, b + (c + (list + body)), rest);
    Assoc(b, c + (list + body), rest);
    Assoc(c, list + body, rest);
    Assoc(list, body, rest);
    assert bytes[0..] == bytes;
    Advance(bytes, 0, a, b + (c + (list + (body + rest))));
    FieldAt(bytes, 8, |indexes|, 2, c + (list + (body + rest)));
    FieldAt(bytes, 10, regions, 4, list + (body + rest));
  }

  lemma FieldAt(bytes: Bytes, at: nat, n: nat, width: nat, rest: Bytes)
    requires at <= |bytes| && bytes[at..] == Be(n, width) + rest
    requires width == 2 || width == 4
    requires n < if width == 2 then 0x1_0000 else 0x1_0000_0000
    ensures |bytes| == at + width + |rest| && FromBe(bytes[at..][..width]) == n && bytes[at + width..] == rest
  {
    hide Be, FromBe;
    Widths();
    FromBeOfBe(n, width);
    Advance(bytes, at, Be(n, width), rest);
    assert bytes[at..][..width] == Be(n, width);
  }

  lemma SubspaceOfParts(bytes: Bytes, attributes: nat, expected: Option<nat>, width: nat, regions: nat,
                        indexes: Parsed<seq<u16>>, skipped: Parsed<seq<()>>)
    requires |bytes| >= 14 + indexes.used
    requires FromBe(bytes[8..][..2]) == width && FromBe(bytes[10..][..4]) == regions
    requires DecodeItems(width, bytes[14..], IndexDecoder(attributes)) == Some(indexes)
    requires DecodeItems(regions, bytes[14..][indexes.used..], DecodeRegion) == Some(skipped)
    ensures DecodeSubspace(attributes, expected, bytes)
      == if expected.Some? && expected.value != regions then None
         else Some(Parsed(PackedSubspace(indexes.value, regions), 14 + indexes.used + skipped.used))
  {
    hide FromBe, DecodeItems;
  }

  // ---------------------------------------------------------------- whole spaces

  /** The last attribute of that name: 0 is the key. */
  function Position(names: seq<Name>, name: Name): (r: Option<u16>)
    requires |names| < 0x1_0000
    ensures r.Some? ==> r.value < |names| && names[r.value] == name && forall j :: r.value < j < |names| ==> names[j] != name
    ensures r.None? ==> name !in names
  {
    if names == [] then None
    else if names[|names| - 1] == name then Some(|names| - 1)
    else Position(names[..|names| - 1], name)
  }

  function Positions(names: seq<Name>, dimensions: seq<Name>): (r: Option<seq<u16>>)
    requires |names| < 0x1_0000
    ensures r.Some? ==> |r.value| == |dimensions|
    ensures r.Some? ==> forall i :: 0 <= i < |dimensions| ==> r.value[i] < |names| && names[r.value[i]] == dimensions[i]
  {
    if dimensions == [] then Some([])
    else
      var first :- Position(names, dimensions[0]);
      var rest :- Positions(names, dimensions[1..]);
      Some([first] + rest)
  }

  /** The integer part of the `width`-th root of the partition count, which the
      source computes in floating point. */
  type Roots = (nat, u32) -> nat

  function RootOf(roots: Roots, width: nat, partitions: u32): nat {
    if width == 1 then partitions else roots(width, partitions)
  }

  /** The boxes of a subspace; the source panics without an attribute or a
      partition. */
  function RegionBoxes(roots: Roots, width: nat, partitions: u32): (r: Option<seq<Box>>)
    ensures r.Some? ==> AllOnWire(r.value, width)
  {
    var root := RootOf(roots, width, partitions);
    if width == 0 || root == 0 || !Cuttable(Dimensions(root, width, partitions)) then None
    else
      var dimensions := Dimensions(root, width, partitions);
      BoxesOnWire(dimensions, [], []);
      Some(Boxes(dimensions, [], []))
  }

  function EncodeSubspaces(names: seq<Name>, subspaces: seq<Subspace>, roots: Roots, partitions: u32,
                           sets: seq<seq<NodeId>>, next: nat): Option<Encoded>
    requires |names| < 0x1_0000
    decreases |subspaces|
  {
    if subspaces == [] then Some(Encoded([], next))
    else
      var indexes :- Positions(names, subspaces[0].dimensions);
      var boxes :- RegionBoxes(roots, |indexes|, partitions);
      var first :- EncodeSubspace(indexes, boxes, sets, next);
      var rest :- EncodeSubspaces(names, subspaces[1..], roots, partitions, sets, first.next);
      Some(Encoded(first.bytes + rest.bytes, rest.next))
  }

  function NamesOf(attrs: seq<PackedAttribute>): (names: seq<Name>)
    ensures |names| == |attrs| && forall i :: 0 <= i < |attrs| ==> names[i] == attrs[i].name
  {
    seq(|attrs|, i requires 0 <= i < |attrs| => attrs[i].name)
  }

  function AttributeTable(space: Space): Option<seq<PackedAttribute>> {
    var codes :- Codes(space.attributes);
    Some([PackedAttribute(space.keyAttribute, STRING_CODE)] + codes)
  }

  function SpaceBytes(id: nat, name: string, tolerance: nat, attrs: seq<PackedAttribute>, subspaces: nat, body: Bytes): Bytes {
    Be(id, 8) + (EncodeText(name) + (Be(tolerance, 8) + (Be(|attrs|, 2) + (Be(subspaces, 2)
      + (Be(0, 2) + (Joined(attrs, EncodeAttribute) + body))))))
  }

  predicate ShortNames(space: Space, attrs: seq<PackedAttribute>) {
    ShortText(space.name) && forall a :: a in attrs ==> ShortText(a.name)
  }

  function EncodeSpace(space: Space, serverIds: seq<NodeId>, roots: Roots, next: nat): Option<Encoded> {
    var attrs :- AttributeTable(space);
    if |attrs| >= 0x1_0000 || |space.subspaces| + 1 >= 0x1_0000 || !ShortNames(space, attrs) then None
    else
      var partitions := space.options.partitions;
      var sets := ReplicaSets(serverIds, ReplicaCount(|serverIds|, space.options.faultTolerance), partitions);
      var keyBoxes :- RegionBoxes(roots, 1, partitions);
      var key :- EncodeSubspace([0], keyBoxes, sets, next + 1);
      var others :- EncodeSubspaces(NamesOf(attrs), space.subspaces, roots, partitions, sets, key.next);
      Some(Encoded(SpaceBytes(next, space.name, space.options.faultTolerance, attrs, |space.subspaces| + 1,
                              key.bytes + others.bytes), others.next))
  }

  // --------------------------------------------------------------------- reading

  predicate AllBelow(subspaces: seq<PackedSubspace>, attributes: nat) {
    forall s :: s in subspaces ==> IndexesBelow(s.indexes, attributes)
  }

  function DecodeSubspaces(count: nat, attributes: nat, expected: Option<nat>, bytes: Bytes)
    : (r: Option<Parsed<seq<PackedSubspace>>>)
    ensures r.Some? ==> r.value.used <= |bytes| && AllBelow(r.value.value, attributes)
  {
    if count == 0 then Some(Parsed([], 0))
    else
      var first :- DecodeSubspace(attributes, expected, bytes);
      var rest :- DecodeSubspaces(count - 1, attributes, Some(first.value.regions), bytes[first.used..]);
      Some(Parsed([first.value] + rest.value, first.used + rest.used))
  }

  /** A secondary index: read and forgotten. */
  function DecodeSecondaryIndex(attributes: nat, bytes: Bytes): (r: Option<Parsed<()>>)
    ensures r.Some? ==> r.value.used <= |bytes|
  {
    if |bytes| < 1 || bytes[0] > 1 then None
    else
      var id :- ReadBe(bytes[1..], 8);
      var attribute :- DecodeIndex(attributes, bytes[9..]);
      var extra :- DecodeSlice(bytes[11..]);
      Some(Parsed((), 11 + extra.used))
  }

  function SecondaryIndexDecoder(attributes: nat): Decoder<()> { (bytes: Bytes) => DecodeSecondaryIndex(attributes, bytes) }

  /** What the reader has collected when it reaches the end of its input. */
  datatype RawSpace = RawSpace(name: Name, tolerance: nat, attrs: seq<PackedAttribute>, subspaces: seq<PackedSubspace>)

  predicate InRangeRaw(raw: RawSpace) { raw.attrs != [] && AllBelow(raw.subspaces, |raw.attrs|) }

  function ReadSpace(bytes: Bytes): (r: Option<RawSpace>)
    ensures r.Some? ==> InRangeRaw(r.value)
  {
    var id :- ReadBe(bytes, 8);
    var afterId := bytes[8..];
    var name :- ReadText(afterId);
    var afterName := afterId[name.used..];
    var tolerance :- ReadBe(afterName, 8);
    var afterTolerance := afterName[8..];
    var attributes :- ReadBe(afterTolerance, 2);
    var subspaces :- ReadBe(afterTolerance[2..], 2);
    var indices :- ReadBe(afterTolerance[2..][2..], 2);
    ReadLists(name.value, tolerance.value, attributes.value, subspaces.value, indices.value, afterTolerance[2..][2..][2..])
  }

  function ReadLists(name: Name, tolerance: nat, attributes: nat, subspaces: nat, indices: nat, bytes: Bytes): (r: Option<RawSpace>)
    ensures r.Some? ==> InRangeRaw(r.value)
  {
    var attrs :- DecodeItems(attributes, bytes, DecodeAttribute);
    if attrs.value == [] || attrs.value[0].datatype_ == SECRET_CODE then None
    else
      var afterAttrs := bytes[attrs.used..];
      var packed :- DecodeSubspaces(subspaces, attributes, None, afterAttrs);
      var afterSubspaces := afterAttrs[packed.used..];
      var skipped :- DecodeItems(indices, afterSubspaces, SecondaryIndexDecoder(attributes));
      if skipped.used != |afterSubspaces| then None
      else Some(RawSpace(name, tolerance, attrs.value, packed.value))
  }

  function Definitions(attrs: seq<PackedAttribute>): Option<seq<AttributeDefinition>> {
    if attrs == [] then Some([])
    else if attrs[0].datatype_ == SECRET_CODE then Definitions(attrs[1..])
    else
      var kind :- KindOf(attrs[0].datatype_);
      var rest :- Definitions(attrs[1..]);
      Some([AttributeDefinition(attrs[0].name, kind)] + rest)
  }

  /** The secret's attribute is left out of the schema, wherever it stands. */
  lemma {:induction false} SecretIsLeftOut(before: seq<PackedAttribute>, name: Name, after: seq<PackedAttribute>)
    ensures Definitions(before + [PackedAttribute(name, 9664)] + after) == Definitions(before + after)
    decreases |before|
  {
    hide KindOf;
    var secret := [PackedAttribute(name, 9664)];
    if before == [] {
      assert before + secret + after == secret + after && (secret + after)[1..] == after && before + after == after;
    } else {
      SecretIsLeftOut(before[1..], name, after);
      assert (before + secret + after)[1..] == before[1..] + secret + after;
      assert (before + after)[1..] == before[1..] + after;
    }
  }

  /** No other attribute may carry the secret's datatype. */
  lemma SecretNeedsItsName(name: Name, rest: Bytes)
    requires ShortText(name)
    ensures var encoded := EncodeAttribute(PackedAttribute(name, 9664));
      DecodeAttribute(encoded + rest)
      == if name == "__secret" then Some(Parsed(PackedAttribute(name, 9664), |encoded|)) else None
  {
    hide EncodeText, ReadText, ReadBe, Be, ShortText;
    var text, code := EncodeText(name), Be(9664, 2);
    Assoc(text, code, rest);
    TextReadBack(name, code + rest);
    DropFront(text, code + rest);
    Widths();
    ReadBeOfBe(9664, 2, rest);
  }

  lemma BelowTail(indexes: seq<u16>, attributes: nat)
    requires indexes != [] && IndexesBelow(indexes, attributes)
    ensures indexes[0] < attributes && IndexesBelow(indexes[1..], attributes)
  {
    assert indexes[0] in indexes;
    assert forall i :: i in indexes[1..] ==> i in indexes;
  }

  /** The key and the secret are dropped from a subspace's dimensions. */
  function KeptNames(indexes: seq<u16>, attrs: seq<PackedAttribute>): seq<Name>
    requires attrs != [] && IndexesBelow(indexes, |attrs|)
  {
    if indexes == [] then []
    else
      BelowTail(indexes, |attrs|);
      var rest := KeptNames(indexes[1..], attrs);
      if attrs[indexes[0]].name == attrs[0].name || attrs[indexes[0]].datatype_ == SECRET_CODE then rest
      else [attrs[indexes[0]].name] + rest
  }

  function KeptSubspaces(subspaces: seq<PackedSubspace>, attrs: seq<PackedAttribute>): seq<Subspace>
    requires attrs != [] && AllBelow(subspaces, |attrs|)
  {
    if subspaces == [] then []
    else
      assert subspaces[0] in subspaces;
      var dimensions := KeptNames(subspaces[0].indexes, attrs);
      var rest := KeptSubspaces(subspaces[1..], attrs);
      if dimensions == [] then rest else [Subspace(dimensions)] + rest
  }

  const DEFAULT_PARTITIONS: u32 := 64

  function Assemble(raw: RawSpace): Option<Space>
    requires InRangeRaw(raw)
  {
    var attributes :- Definitions(raw.attrs[1..]);
    var subspaces := if raw.subspaces == [] then [] else KeptSubspaces(raw.subspaces[1..], raw.attrs);
    var partitions := if raw.subspaces == [] || raw.subspaces[0].regions == 0 then DEFAULT_PARTITIONS else raw.subspaces[0].regions;
    if raw.tolerance >= 0x1_0000_0000 || partitions >= 0x1_0000_0000 then None
    else Some(Space(raw.name, raw.attrs[0].name, attributes, subspaces, SpaceOptions(raw.tolerance, partitions, HyperDexDsl)))
  }

  function DecodeSpace(bytes: Bytes): Option<Space> {
    var raw :- ReadSpace(bytes);
    Assemble(raw)
  }

  // ---------------------------------------------------------------- round trips

  predicate AllPlain(attrs: seq<PackedAttribute>) { forall a :: a in attrs ==> PlainAttribute(a) }

  lemma AttributesReadBack(attrs: seq<PackedAttribute>, rest: Bytes)
    requires AllPlain(attrs)
    ensures var encoded := Joined(attrs, EncodeAttribute);
      DecodeItems(|attrs|, encoded + rest, DecodeAttribute) == Some(Parsed(attrs, |encoded|))
  {
    hide EncodeAttribute, DecodeAttribute, PlainAttribute;
    forall i, r | 0 <= i < |attrs| ensures UndoesOne(attrs[i], EncodeAttribute, DecodeAttribute, 0, r) {
      assert attrs[i] in attrs;
      AttributeReadBack(attrs[i], r);
    }
    ItemsRoundTrip(attrs, EncodeAttribute, DecodeAttribute, 0, rest);
  }

  lemma {:induction false} CodesPlain(attributes: seq<AttributeDefinition>)
    requires Codes(attributes).Some?
    ensures forall a :: a in Codes(attributes).value ==> a.datatype_ < SECRET_CODE
  {
    if attributes != [] {
      KindRoundTrip(attributes[0].kind);
      CodesPlain(attributes[1..]);
    }
  }

  predicate HasByteString(attributes: seq<AttributeDefinition>) { exists a :: a in attributes && a.kind.KBytes? }

  lemma {:induction false} DefinitionsReadBack(attributes: seq<AttributeDefinition>)
    requires Codes(attributes).Some?
    ensures Definitions(Codes(attributes).value) == if HasByteString(attributes) then None else Some(attributes)
  {
    if attributes != [] {
      hide HyperDatatype, KindOf;
      var first, rest := attributes[0], attributes[1..];
      KindRoundTrip(first.kind);
      DefinitionsReadBack(rest);
      assert attributes == [first] + rest;
      var codes := Codes(attributes).value;
      assert codes[1..] == Codes(rest).value;
    }
  }

  /** How many regions a subspace is cut into. */
  function RegionCount(roots: Roots, width: nat, partitions: u32): nat
    requires width > 0 && RootOf(roots, width, partitions) > 0
  {
    Product(Dimensions(RootOf(roots, width, partitions), width, partitions))
  }

  lemma RegionBoxesCount(roots: Roots, width: nat, partitions: u32)
    requires RegionBoxes(roots, width, partitions).Some?
    ensures |RegionBoxes(roots, width, partitions).value| == RegionCount(roots, width, partitions)
    ensures width == 1 ==> RegionCount(roots, width, partitions) == partitions
  {
    var root := RootOf(roots, width, partitions);
    var dimensions := Dimensions(root, width, partitions);
    BoxesCut(dimensions, [], [], [], seq(width, _ => 0));
    TwoSizes(root, width, partitions);
    if width == 1 { assert dimensions[1..] == []; }
  }

  /** The reader takes a space only if every subspace is cut into as many
      regions as there are partitions. */
  predicate SameRegions(roots: Roots, subspaces: seq<Subspace>, partitions: u32) {
    if subspaces == [] then true
    else
      var width := |subspaces[0].dimensions|;
      width > 0 && RootOf(roots, width, partitions) > 0 && RegionCount(roots, width, partitions) == partitions
      && SameRegions(roots, subspaces[1..], partitions)
  }

  /** The subspaces as the reader sees them. */
  function Packed(names: seq<Name>, subspaces: seq<Subspace>, partitions: u32): (r: Option<seq<PackedSubspace>>)
    requires |names| < 0x1_0000
    ensures r.Some? ==> AllBelow(r.value, |names|)
  {
    if subspaces == [] then Some([])
    else
      var indexes :- Positions(names, subspaces[0].dimensions);
      var rest :- Packed(names, subspaces[1..], partitions);
      Some([PackedSubspace(indexes, partitions)] + rest)
  }

  lemma {:induction false} SubspacesReadBack(names: seq<Name>, subspaces: seq<Subspace>, roots: Roots, partitions: u32,
                                             sets: seq<seq<NodeId>>, next: nat, rest: Bytes)
    requires |names| < 0x1_0000 && EncodeSubspaces(names, subspaces, roots, partitions, sets, next).Some?
    ensures Packed(names, subspaces, partitions).Some?
    ensures var encoded := EncodeSubspaces(names, subspaces, roots, partitions, sets, next).value.bytes;
      DecodeSubspaces(|subspaces|, |names|, Some(partitions), encoded + rest)
      == if SameRegions(roots, subspaces, partitions)
         then Some(Parsed(Packed(names, subspaces, partitions).value, |encoded|)) else None
    decreases |subspaces|
  {
    hide EncodeSubspace, DecodeSubspace, Positions, RegionBoxes, RegionCount, RootOf, AllOnWire, AllBelow, IndexesBelow;
    if subspaces == [] {
      assert [] + rest == rest;
    } else {
      var width := |subspaces[0].dimensions|;
      var indexes := Positions(names, subspaces[0].dimensions).value;
      var boxes := RegionBoxes(roots, width, partitions).value;
      var first := EncodeSubspace(indexes, boxes, sets, next).value;
      var more := EncodeSubspaces(names, subspaces[1..], roots, partitions, sets, first.next).value.bytes;
      PositionsBelow(names, subspaces[0].dimensions);
      SubspaceReadBack(indexes, boxes, sets, next, |names|, Some(partitions), more + rest);
      SubspacesReadBack(names, subspaces[1..], roots, partitions, sets, first.next, rest);
      RegionBoxesSome(roots, width, partitions);
      RegionBoxesCount(roots, width, partitions);
      Assoc(first.bytes, more, rest);
      DropFront(first.bytes, more + rest);
    }
  }

  lemma PositionsBelow(names: seq<Name>, dimensions: seq<Name>)
    requires |names| < 0x1_0000 && Positions(names, dimensions).Some?
    ensures IndexesBelow(Positions(names, dimensions).value, |names|)
  {
    hide Positions;
  }

  lemma RegionBoxesSome(roots: Roots, width: nat, partitions: u32)
    requires RegionBoxes(roots, width, partitions).Some?
    ensures width > 0 && RootOf(roots, width, partitions) > 0
  {
  }

  /** What the reader collects from a packed space. */
  lemma ReadSpaceBack(id: nat, name: string, tolerance: nat, attrs: seq<PackedAttribute>, subspaces: nat, body: Bytes)
    requires ShortText(name) && tolerance < TWO_64 && |attrs| < 0x1_0000 && subspaces < 0x1_0000 && AllPlain(attrs)
    ensures ReadSpace(SpaceBytes(id, name, tolerance, attrs, subspaces, body))
      == ReadLists(name, tolerance, |attrs|, subspaces, 0, Joined(attrs, EncodeAttribute) + body)
  {
    hide EncodeText, ReadText, ReadBe, Be, Joined, ReadLists, AllPlain, ShortText;
    var lists := Joined(attrs, EncodeAttribute) + body;
    var afterSubspaces := Be(0, 2) + lists;
    var afterAttributes := Be(subspaces, 2) + afterSubspaces;
    var afterTolerance := Be(|attrs|, 2) + afterAttributes;
    var afterName := Be(tolerance, 8) + afterTolerance;
    var afterId := EncodeText(name) + afterName;
    Widths();
    DropFront(Be(id, 8), afterId);
    assert ReadBe(Be(id, 8) + afterId, 8).Some? by { ReadsAny(Be(id, 8) + afterId, 8); }
    TextReadBack(name, afterName);
    DropFront(EncodeText(name), afterName);
    ReadBeOfBe(tolerance, 8, afterTolerance);
    DropFront(Be(tolerance, 8), afterTolerance);
    ReadBeOfBe(|attrs|, 2, afterAttributes);
    DropFront(Be(|attrs|, 2), afterAttributes);
    ReadBeOfBe(subspaces, 2, afterSubspaces);
    DropFront(Be(subspaces, 2), afterSubspaces);
    ReadBeOfBe(0, 2, lists);
    DropFront(Be(0, 2), lists);
  }

  lemma ReadsAny(bytes: Bytes, width: nat)
    requires |bytes| >= width
    ensures ReadBe(bytes, width).Some?
  {
  }

  lemma ReadListsBack(name: Name, tolerance: nat, attrs: seq<PackedAttribute>, subspaces: nat, body: Bytes)
    requires AllPlain(attrs) && attrs != []
    ensures ReadLists(name, tolerance, |attrs|, subspaces, 0, Joined(attrs, EncodeAttribute) + body)
      == var packed := DecodeSubspaces(subspaces, |attrs|, None, body);
         if packed.None? || packed.value.used != |body| then None
         else Some(RawSpace(name, tolerance, attrs, packed.value.value))
  {
    hide EncodeAttribute, DecodeAttribute, Joined, DecodeSubspaces, AllBelow;
    AttributesReadBack(attrs, body);
    DropFront(Joined(attrs, EncodeAttribute), body);
    assert attrs[0] in attrs && PlainAttribute(attrs[0]);
  }

  lemma KeySubspaceReadBack(names: seq<Name>, space: Space, roots: Roots, sets: seq<seq<NodeId>>, next: nat)
    requires 0 < |names| < 0x1_0000
    requires RegionBoxes(roots, 1, space.options.partitions).Some?
    requires var boxes := RegionBoxes(roots, 1, space.options.partitions).value;
      && EncodeSubspace([0], boxes, sets, next).Some?
      && EncodeSubspaces(names, space.subspaces, roots, space.options.partitions, sets,
                         EncodeSubspace([0], boxes, sets, next).value.next).Some?
    ensures Packed(names, space.subspaces, space.options.partitions).Some?
    ensures
      var partitions := space.options.partitions;
      var key := EncodeSubspace([0], RegionBoxes(roots, 1, partitions).value, sets, next).value;
      var others := EncodeSubspaces(names, space.subspaces, roots, partitions, sets, key.next).value;
      var body := key.bytes + others.bytes;
      DecodeSubspaces(|space.subspaces| + 1, |names|, None, body)
      == if SameRegions(roots, space.subspaces, partitions)
         then Some(Parsed([PackedSubspace([0], partitions)] + Packed(names, space.subspaces, partitions).value, |body|))
         else None
  {
    hide EncodeSubspace, DecodeSubspace, RegionBoxes, RegionCount, EncodeSubspaces, Packed, SameRegions;
    var partitions := space.options.partitions;
    var boxes := RegionBoxes(roots, 1, partitions).value;
    var key := EncodeSubspace([0], boxes, sets, next).value;
    var others := EncodeSubspaces(names, space.subspaces, roots, partitions, sets, key.next).value;
    RegionBoxesSome(roots, 1, partitions);
    RegionBoxesCount(roots, 1, partitions);
    SubspaceReadBack([0], boxes, sets, next, |names|, None, others.bytes);
    SubspacesReadBack(names, space.subspaces, roots, partitions, sets, key.next, []);
    assert others.bytes + [] == others.bytes;
    DropFront(key.bytes, others.bytes);
  }

  /** A subspace without the key among its dimensions. */
  function WithoutKey(dimensions: seq<Name>, key: Name): seq<Name> {
    if dimensions == [] then []
    else if dimensions[0] == key then WithoutKey(dimensions[1..], key)
    else [dimensions[0]] + WithoutKey(dimensions[1..], key)
  }

  function NormalSubspaces(subspaces: seq<Subspace>, key: Name): seq<Subspace> {
    if subspaces == [] then []
    else
      var dimensions := WithoutKey(subspaces[0].dimensions, key);
      var rest := NormalSubspaces(subspaces[1..], key);
      if dimensions == [] then rest else [Subspace(dimensions)] + rest
  }

  /** What a space becomes on its way through the packed form. */
  function Normal(space: Space): Space {
    space.(subspaces := NormalSubspaces(space.subspaces, space.keyAttribute),
           options := space.options.(schemaFormat := HyperDexDsl))
  }

  predicate NoSecret(attrs: seq<PackedAttribute>) { forall a :: a in attrs ==> a.datatype_ < SECRET_CODE }

  lemma {:induction false} KeptNamesBack(attrs: seq<PackedAttribute>, dimensions: seq<Name>)
    requires 0 < |attrs| < 0x1_0000 && NoSecret(attrs)
    requires Positions(NamesOf(attrs), dimensions).Some?
    requires IndexesBelow(Positions(NamesOf(attrs), dimensions).value, |attrs|)
    ensures KeptNames(Positions(NamesOf(attrs), dimensions).value, attrs) == WithoutKey(dimensions, attrs[0].name)
  {
    if dimensions != [] {
      hide NamesOf, Position;
      var names := NamesOf(attrs);
      var indexes := Positions(names, dimensions).value;
      assert indexes[1..] == Positions(names, dimensions[1..]).value;
      BelowTail(indexes, |attrs|);
      assert names[indexes[0]] == dimensions[0];
      assert attrs[indexes[0]] in attrs;
      KeptNamesBack(attrs, dimensions[1..]);
    }
  }

  lemma {:induction false} KeptSubspacesBack(attrs: seq<PackedAttribute>, subspaces: seq<Subspace>, partitions: u32)
    requires 0 < |attrs| < 0x1_0000 && NoSecret(attrs)
    requires Packed(NamesOf(attrs), subspaces, partitions).Some?
    ensures KeptSubspaces(Packed(NamesOf(attrs), subspaces, partitions).value, attrs)
      == NormalSubspaces(subspaces, attrs[0].name)
  {
    hide NamesOf, Positions, KeptNames, WithoutKey, NoSecret, IndexesBelow;
    if subspaces != [] {
      var packed := Packed(NamesOf(attrs), subspaces, partitions).value;
      var rest := Packed(NamesOf(attrs), subspaces[1..], partitions).value;
      assert packed[0] in packed;
      assert packed[1..] == rest;
      KeptNamesBack(attrs, subspaces[0].dimensions);
      KeptSubspacesBack(attrs, subspaces[1..], partitions);
    }
  }

  lemma AssembleBack(space: Space, attrs: seq<PackedAttribute>)
    requires AttributeTable(space) == Some(attrs) && |attrs| < 0x1_0000 && space.options.partitions > 0
    requires Packed(NamesOf(attrs), space.subspaces, space.options.partitions).Some?
    ensures
      var subspaces := [PackedSubspace([0], space.options.partitions)]
        + Packed(NamesOf(attrs), space.subspaces, space.options.partitions).value;
      var raw := RawSpace(space.name, space.options.faultTolerance, attrs, subspaces);
      InRangeRaw(raw) && Assemble(raw) == if HasByteString(space.attributes) then None else Some(Normal(space))
  {
    hide Codes, Definitions, NamesOf, Packed, KeptSubspaces, NormalSubspaces, HasByteString, IndexesBelow;
    var codes := Codes(space.attributes).value;
    assert attrs[1..] == codes;
    CodesPlain(space.attributes);
    DefinitionsReadBack(space.attributes);
    KeptSubspacesBack(attrs, space.subspaces, space.options.partitions);
    var packed := Packed(NamesOf(attrs), space.subspaces, space.options.partitions).value;
    var first := PackedSubspace([0], space.options.partitions);
    assert ([first] + packed)[1..] == packed;
    assert IndexesBelow([0], |attrs|) by { KeyIndexBelow(|attrs|); }
  }

  lemma KeyIndexBelow(attributes: nat)
    requires attributes > 0
    ensures IndexesBelow([0], attributes)
  {
  }

  /** What the admin client makes of any space the coordinator packs: it refuses
      a space with a byte-string attribute or with a subspace cut into another
      number of regions, and otherwise gets the space back, less the key among
      subspace dimensions. */
  lemma PackedSpaceExact(space: Space, serverIds: seq<NodeId>, roots: Roots, next: nat)
    requires EncodeSpace(space, serverIds, roots, next).Some?
    ensures DecodeSpace(EncodeSpace(space, serverIds, roots, next).value.bytes)
      == if HasByteString(space.attributes) || !SameRegions(roots, space.subspaces, space.options.partitions)
         then None else Some(Normal(space))
  {
    hide AttributeTable, ReplicaSets, RegionBoxes, EncodeSubspace, EncodeSubspaces, ReadSpace, ReadLists, DecodeSubspaces,
         SpaceBytes, Assemble, Packed, SameRegions, HasByteString, NamesOf, ReplicaCount, Normal, ShortText, AllPlain;
    var attrs := AttributeTable(space).value;
    var partitions := space.options.partitions;
    var sets := ReplicaSets(serverIds, ReplicaCount(|serverIds|, space.options.faultTolerance), partitions);
    var key := EncodeSubspace([0], RegionBoxes(roots, 1, partitions).value, sets, next + 1).value;
    var others := EncodeSubspaces(NamesOf(attrs), space.subspaces, roots, partitions, sets, key.next).value;
    var body := key.bytes + others.bytes;
    RegionBoxesSome(roots, 1, partitions);
    TablePlain(space);
    ReadSpaceBack(next, space.name, space.options.faultTolerance, attrs, |space.subspaces| + 1, body);
    KeySubspaceReadBack(NamesOf(attrs), space, roots, sets, next + 1);
    ReadListsBack(space.name, space.options.faultTolerance, attrs, |space.subspaces| + 1, body);
    AssembleBack(space, attrs);
  }

  lemma TablePlain(space: Space)
    requires AttributeTable(space).Some? && ShortNames(space, AttributeTable(space).value)
    ensures AttributeTable(space).value != [] && AllPlain(AttributeTable(space).value) && ShortText(space.name)
  {
    hide ShortText;
    CodesPlain(space.attributes);
  }

  /** What a schema must be for the packed form to keep all of it. */
  predicate Packable(space: Space, roots: Roots) {
    && !HasByteString(space.attributes)
    && SameRegions(roots, space.subspaces, space.options.partitions)
    && (forall s :: s in space.subspaces ==> space.keyAttribute !in s.dimensions)
    && space.options.schemaFormat == HyperDexDsl
  }

  lemma {:induction false} WithoutKeyShorter(dimensions: seq<Name>, key: Name)
    ensures |WithoutKey(dimensions, key)| <= |dimensions|
    ensures WithoutKey(dimensions, key) == dimensions <==> key !in dimensions
  {
    if dimensions != [] {
      WithoutKeyShorter(dimensions[1..], key);
      assert dimensions == [dimensions[0]] + dimensions[1..];
    }
  }

  lemma {:induction false} NormalSame(subspaces: seq<Subspace>, key: Name)
    requires forall s :: s in subspaces ==> s.dimensions != []
    ensures |NormalSubspaces(subspaces, key)| <= |subspaces|
    ensures NormalSubspaces(subspaces, key) == subspaces <==> forall s :: s in subspaces ==> key !in s.dimensions
  {
    hide WithoutKey;
    if subspaces != [] {
      var first := subspaces[0];
      assert first in subspaces && subspaces == [first] + subspaces[1..];
      WithoutKeyShorter(first.dimensions, key);
      NormalSame(subspaces[1..], key);
    }
  }

  lemma {:induction false} EncodedNonempty(names: seq<Name>, subspaces: seq<Subspace>, roots: Roots, partitions: u32,
                                           sets: seq<seq<NodeId>>, next: nat)
    requires |names| < 0x1_0000 && EncodeSubspaces(names, subspaces, roots, partitions, sets, next).Some?
    ensures forall s :: s in subspaces ==> s.dimensions != []
    decreases |subspaces|
  {
    hide EncodeSubspace, Positions;
    if subspaces != [] {
      var indexes := Positions(names, subspaces[0].dimensions).value;
      var boxes := RegionBoxes(roots, |indexes|, partitions).value;
      RegionBoxesSome(roots, |indexes|, partitions);
      EncodedNonempty(names, subspaces[1..], roots, partitions, sets, EncodeSubspace(indexes, boxes, sets, next).value.next);
    }
  }

  /** A packed space is read back as it was written exactly when it is packable. */
  lemma PackedSpaceRoundTrip(space: Space, serverIds: seq<NodeId>, roots: Roots, next: nat)
    requires EncodeSpace(space, serverIds, roots, next).Some?
    ensures DecodeSpace(EncodeSpace(space, serverIds, roots, next).value.bytes) == Some(space) <==> Packable(space, roots)
  {
    PackedSpaceExact(space, serverIds, roots, next);
    SubspacesNonempty(space, serverIds, roots, next);
    hide EncodeSpace, DecodeSpace, SameRegions, HasByteString, NormalSubspaces;
    NormalSame(space.subspaces, space.keyAttribute);
  }

  lemma SubspacesNonempty(space: Space, serverIds: seq<NodeId>, roots: Roots, next: nat)
    requires EncodeSpace(space, serverIds, roots, next).Some?
    ensures forall s :: s in space.subspaces ==> s.dimensions != []
  {
    hide AttributeTable, ReplicaSets, RegionBoxes, EncodeSubspace, EncodeSubspaces, SpaceBytes, NamesOf, ReplicaCount, ShortNames;
    var attrs := AttributeTable(space).value;
    var partitions := space.options.partitions;
    var sets := ReplicaSets(serverIds, ReplicaCount(|serverIds|, space.options.faultTolerance), partitions);
    var key := EncodeSubspace([0], RegionBoxes(roots, 1, partitions).value, sets, next + 1).value;
    EncodedNonempty(NamesOf(attrs), space.subspaces, roots, partitions, sets, key.next);
  }

  lemma {:induction false} SameRegionsAt(roots: Roots, subspaces: seq<Subspace>, partitions: u32, s: Subspace)
    requires SameRegions(roots, subspaces, partitions) && s in subspaces
    ensures var width := |s.dimensions|;
      width > 0 && RootOf(roots, width, partitions) > 0 && RegionCount(roots, width, partitions) == partitions
  {
    hide RegionCount;
    if s != subspaces[0] { SameRegionsAt(roots, subspaces[1..], partitions, s); }
  }

  /** A schema with a two-attribute subspace is never read back, whatever its
      partition count, except one, four and six: in particular not with the default
      of sixty-four. */
  lemma PairSubspacesAreRefused(space: Space, serverIds: seq<NodeId>, roots: Roots, next: nat, s: Subspace)
    requires EncodeSpace(space, serverIds, roots, next).Some?
    requires s in space.subspaces && |s.dimensions| == 2
    requires var root, partitions := roots(2, space.options.partitions), space.options.partitions;
      root >= 1 && root * root <= partitions < (root + 1) * (root + 1) && partitions !in {1, 4, 6}
    ensures DecodeSpace(EncodeSpace(space, serverIds, roots, next).value.bytes) == None
  {
    hide EncodeSpace, DecodeSpace, SameRegions, HasByteString, Dimensions;
    var partitions := space.options.partitions;
    PackedSpaceExact(space, serverIds, roots, next);
    TwoAttributeCut(roots(2, partitions), partitions);
    if SameRegions(roots, space.subspaces, partitions) {
      SameRegionsAt(roots, space.subspaces, partitions, s);
      assert false;
    }
  }
}
