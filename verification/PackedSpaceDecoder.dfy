/** The admin client's cursor over a packed space, method by method as in
    crates/hyperdex-admin-protocol. */
module PackedDecoding {
  import opened Base
  import opened DataModel
  import opened Lists
  import opened PackedSpace
  import opened Wire

  /** A read that returned `r` did what `spec` finds at the start of `before`,
      and left the cursor behind it. */
  ghost predicate Consumed<T>(r: Option<T>, spec: Option<Parsed<T>>, before: Bytes, after: Bytes) {
    match spec
    case None => r.None?
    case Some(p) => r == Some(p.value) && p.used <= |before| && after == before[p.used..]
  }

  class PackedSpaceDecoder {
    const bytes: Bytes
    var cursor: nat

    ghost predicate Valid()
      reads this
    {
      cursor <= |bytes|
    }

    ghost function Rest(): Bytes
      requires Valid()
      reads this
    {
      bytes[cursor..]
    }

    constructor (bytes: Bytes)
      ensures Valid() && Rest() == bytes
    {
      this.bytes := bytes;
      cursor := 0;
    }

    method ReadExact(len: nat) returns (r: Option<Bytes>)
      requires Valid()
      modifies this
      ensures Valid()
      ensures r == if len <= |old(Rest())| then Some(old(Rest())[..len]) else None
      ensures r.Some? ==> Rest() == old(Rest())[len..]
    {
      var end := cursor + len;
      if end > |bytes| {
        return None;
      }
      r := Some(bytes[cursor..end]);
      assert bytes[cursor..][..len] == bytes[cursor..end] && bytes[cursor..][len..] == bytes[end..];
      cursor := end;
    }

    method ReadUint(width: nat) returns (r: Option<nat>)
      requires Valid()
      modifies this
      ensures Valid() && Consumed(r, ReadBe(old(Rest()), width), old(Rest()), Rest())
    {
      var raw := ReadExact(width);
      r := if raw.None? then None else Some(FromBe(raw.value));
    }

    method ReadSlice() returns (r: Option<Bytes>)
      requires Valid()
      modifies this
      ensures Valid() && Consumed(r, DecodeSlice(old(Rest())), old(Rest()), Rest())
    {
      hide DecodeVarint;
      ghost var before := Rest();
      var size := DecodeVarintLoop(bytes[cursor..]);
      if size.None? {
        return None;
      }
      var used, len := size.value.used, size.value.value;
      assert before[used..] == bytes[cursor + used..];
      cursor := cursor + used;
      r := ReadExact(len);
      if r.Some? {
        assert before[used..][..len] == before[used..used + len] && before[used..][len..] == before[used + len..];
      }
    }

    method ReadString() returns (r: Option<string>)
      requires Valid()
      modifies this
      ensures Valid() && Consumed(r, ReadText(old(Rest())), old(Rest()), Rest())
    {
      hide DecodeSlice;
      var slice := ReadSlice();
      r := if slice.None? then None else Utf8.Decode(slice.value);
    }

    method ReadAttribute() returns (r: Option<PackedAttribute>)
      requires Valid()
      modifies this
      ensures Valid() && Consumed(r, DecodeAttribute(old(Rest())), old(Rest()), Rest())
    {
      hide ReadText;
      ghost var before := Rest();
      var name := ReadString();
      if name.None? {
        return None;
      }
      ghost var used := ReadText(before).value.used;
      var code := ReadUint(2);
      if code.None? || (code.value == SECRET_CODE && name.value != SECRET_NAME) {
        return None;
      }
      SkipTwice(before, used, 2);
      CodeInRange(before[used..]);
      r := Some(PackedAttribute(name.value, code.value));
    }

    lemma CodeInRange(at: Bytes)
      requires |at| >= 2
      ensures FromBe(at[..2]) < 0x1_0000
    {
      BeOfFromBe(at[..2]);
      Widths();
    }

    method ReadAttributes(count: nat) returns (r: Option<seq<PackedAttribute>>)
      requires Valid()
      modifies this
      ensures Valid() && Consumed(r, DecodeItems(count, old(Rest()), DecodeAttribute), old(Rest()), Rest())
    {
      hide DecodeItems, DecodeAttribute, After;
      ghost var before := Rest();
      var items: seq<PackedAttribute> := [];
      ghost var used: nat := 0;
      AfterNothing(DecodeItems(count, before, DecodeAttribute));
      for i := 0 to count
        invariant Valid() && used <= |before| && Rest() == before[used..]
        invariant DecodeItems(count, before, DecodeAttribute)
               == After(items, used, DecodeItems(count - i, before[used..], DecodeAttribute))
      {
        NextItem(before, used, items, count - i, DecodeAttribute);
        ghost var spec := DecodeAttribute(Rest());
        var item := ReadAttribute();
        if item.None? {
          return None;
        }
        SkipTwice(before, used, spec.value.used);
        used := used + spec.value.used;
        items := items + [item.value];
      }
      AfterAll(items, used, before[used..], DecodeAttribute);
      r := Some(items);
    }

    method ReadIndex(attributes: nat) returns (r: Option<u16>)
      requires Valid()
      modifies this
      ensures Valid() && Consumed(r, DecodeIndex(attributes, old(Rest())), old(Rest()), Rest())
    {
      ghost var before := Rest();
      var n := ReadUint(2);
      if n.None? || n.value >= attributes {
        return None;
      }
      CodeInRange(before);
      r := Some(n.value);
    }

    method ReadIndexes(count: nat, attributes: nat) returns (r: Option<seq<u16>>)
      requires Valid()
      modifies this
      ensures Valid() && Consumed(r, DecodeItems(count, old(Rest()), IndexDecoder(attributes)), old(Rest()), Rest())
    {
      hide DecodeItems, DecodeIndex, After;
      ghost var before := Rest();
      ghost var dec := IndexDecoder(attributes);
      var items: seq<u16> := [];
      ghost var used: nat := 0;
      AfterNothing(DecodeItems(count, before, dec));
      for i := 0 to count
        invariant Valid() && used <= |before| && Rest() == before[used..]
        invariant DecodeItems(count, before, dec) == After(items, used, DecodeItems(count - i, before[used..], dec))
      {
        NextItem(before, used, items, count - i, dec);
        ghost var spec := DecodeIndex(attributes, Rest());
        var item := ReadIndex(attributes);
        if item.None? {
          return None;
        }
        SkipTwice(before, used, spec.value.used);
        used := used + spec.value.used;
        items := items + [item.value];
      }
      AfterAll(items, used, before[used..], dec);
      r := Some(items);
    }

    method SkipRegion() returns (r: Option<()>)
      requires Valid()
      modifies this
      ensures Valid() && Consumed(r, DecodeRegion(old(Rest())), old(Rest()), Rest())
    {
      hide FromBe, ReadBe;
      ghost var before := Rest();
      var id := ReadUint(8);
      if id.None? {
        return None;
      }
      var hashes := ReadUint(2);
      if hashes.None? {
        return None;
      }
      var replicas := ReadExact(1);
      if replicas.None? {
        return None;
      }
      RegionHeader(before);
      r := SkipRegionBody(hashes.value, replicas.value[0] as nat);
    }

    /** The coordinates and the replicas of a region take sixteen bytes each. */
    method SkipRegionBody(hashes: nat, replicas: nat) returns (r: Option<()>)
      requires Valid()
      modifies this
      ensures Valid()
      ensures var size := 16 * hashes + 16 * replicas;
        && (r.Some? <==> size <= |old(Rest())|)
        && (r.Some? ==> r == Some(()) && Rest() == old(Rest())[size..])
    {
      ghost var before := Rest();
      var coordinates := ReadExact(hashes * 16);
      if coordinates.None? {
        return None;
      }
      var ids := ReadExact(replicas * 16);
      if ids.None? {
        return None;
      }
      SkipTwice(before, 16 * hashes, 16 * replicas);
      r := Some(());
    }

    lemma RegionHeader(before: Bytes)
      requires |before| >= 11
      ensures before[8..][2..] == before[10..]
      ensures ReadBe(before[8..], 2) == Some(Parsed(FromBe(before[8..10]), 2))
      ensures before[10..][..1] == [before[10]] && before[10..][1..] == before[11..]
      ensures forall size: nat | 11 + size <= |before| :: before[11..][size..] == before[11 + size..]
    {
      hide FromBe;
      assert before[8..][..2] == before[8..10];
    }

    method SkipRegions(count: nat) returns (r: Option<()>)
      requires Valid()
      modifies this
      ensures Valid()
      ensures var spec := DecodeItems(count, old(Rest()), DecodeRegion);
        && (r.Some? <==> spec.Some?)
        && (r.Some? ==> Rest() == old(Rest())[spec.value.used..])
    {
      hide DecodeItems, DecodeRegion, After;
      ghost var before := Rest();
      ghost var items: seq<()> := [];
      ghost var used: nat := 0;
      AfterNothing(DecodeItems(count, before, DecodeRegion));
      for i := 0 to count
        invariant Valid() && used <= |before| && Rest() == before[used..]
        invariant DecodeItems(count, before, DecodeRegion)
               == After(items, used, DecodeItems(count - i, before[used..], DecodeRegion))
      {
        NextItem(before, used, items, count - i, DecodeRegion);
        ghost var spec := DecodeRegion(Rest());
        var region := SkipRegion();
        if region.None? {
          return None;
        }
        SkipTwice(before, used, spec.value.used);
        used := used + spec.value.used;
        items := items + [spec.value.value];
      }
      AfterAll(items, used, before[used..], DecodeRegion);
      r := Some(());
    }

    method ReadSubspace(attributes: nat, expected: Option<nat>) returns (r: Option<PackedSubspace>)
      requires Valid()
      modifies this
      ensures Valid() && Consumed(r, DecodeSubspace(attributes, expected, old(Rest())), old(Rest()), Rest())
    {
      hide ReadBe, FromBe, SubspaceLists, IndexesBelow;
      ghost var before := Rest();
      var id := ReadUint(8);
      if id.None? {
        return None;
      }
      var width := ReadUint(2);
      if width.None? {
        return None;
      }
      var regions := ReadUint(4);
      if regions.None? {
        return None;
      }
      SubspaceHeader(before);
      if expected.Some? && expected.value != regions.value {
        return None;
      }
      ghost var lists := SubspaceLists(attributes, width.value, regions.value, before[14..]);
      r := ReadSubspaceLists(width.value, regions.value, attributes);
      if r.Some? {
        SkipTwice(before, 14, lists.value.used);
      }
    }

    method ReadSubspaceLists(width: nat, regions: nat, attributes: nat) returns (r: Option<PackedSubspace>)
      requires Valid()
      modifies this
      ensures Valid() && Consumed(r, SubspaceLists(attributes, width, regions, old(Rest())), old(Rest()), Rest())
    {
      hide DecodeItems, DecodeRegion, IndexDecoder, IndexesBelow;
      ghost var before := Rest();
      IndexDecoderInRange(attributes);
      var indexes := ReadIndexes(width, attributes);
      if indexes.None? {
        return None;
      }
      ghost var used := DecodeItems(width, before, IndexDecoder(attributes)).value.used;
      var skipped := SkipRegions(regions);
      if skipped.None? {
        return None;
      }
      ghost var more := DecodeItems(regions, before[used..], DecodeRegion).value.used;
      SkipTwice(before, used, more);
      r := Some(PackedSubspace(indexes.value, regions));
    }

    lemma IndexDecoderInRange(attributes: nat)
      ensures InRange(IndexDecoder(attributes))
    {
    }

    lemma SubspaceHeader(before: Bytes)
      requires |before| >= 14
      ensures ReadBe(before[8..], 2) == Some(Parsed(FromBe(before[8..][..2]), 2))
      ensures ReadBe(before[10..], 4) == Some(Parsed(FromBe(before[10..][..4]), 4))
      ensures before[8..][2..] == before[10..] && before[10..][4..] == before[14..]
    {
    }

    method ReadSubspaces(count: nat, attributes: nat) returns (r: Option<seq<PackedSubspace>>)
      requires Valid()
      modifies this
      ensures Valid() && Consumed(r, DecodeSubspaces(count, attributes, None, old(Rest())), old(Rest()), Rest())
    {
      hide DecodeSubspaces, DecodeSubspace, After, AllBelow, IndexesBelow;
      ghost var before := Rest();
      var items: seq<PackedSubspace> := [];
      var partitions: Option<nat> := None;
      ghost var used: nat := 0;
      AfterNothing(DecodeSubspaces(count, attributes, None, before));
      for i := 0 to count
        invariant Valid() && used <= |before| && Rest() == before[used..]
        invariant DecodeSubspaces(count, attributes, None, before)
               == After(items, used, DecodeSubspaces(count - i, attributes, partitions, before[used..]))
      {
        NextSubspace(before, used, items, count - i, attributes, partitions);
        ghost var spec := DecodeSubspace(attributes, partitions, Rest());
        var item := ReadSubspace(attributes, partitions);
        if item.None? {
          return None;
        }
        SkipTwice(before, used, spec.value.used);
        used := used + spec.value.used;
        items := items + [item.value];
        partitions := Some(item.value.regions);
      }
      AllSubspaces(items, used, before[used..], attributes, partitions);
      r := Some(items);
    }

    lemma AllSubspaces(done: seq<PackedSubspace>, used: nat, rest: Bytes, attributes: nat, expected: Option<nat>)
      ensures After(done, used, DecodeSubspaces(0, attributes, expected, rest)) == Some(Parsed(done, used))
    {
      assert done + [] == done;
    }

    lemma NextSubspace(before: Bytes, used: nat, done: seq<PackedSubspace>, count: nat, attributes: nat, expected: Option<nat>)
      requires used <= |before| && count > 0
      ensures var item := DecodeSubspace(attributes, expected, before[used..]);
        After(done, used, DecodeSubspaces(count, attributes, expected, before[used..]))
        == if item.None? then None
           else After(done + [item.value.value], used + item.value.used,
                      DecodeSubspaces(count - 1, attributes, Some(item.value.value.regions), before[used + item.value.used..]))
    {
      hide DecodeSubspace, AllBelow, IndexesBelow;
      var item := DecodeSubspace(attributes, expected, before[used..]);
      if item.Some? {
        var next := used + item.value.used;
        assert before[used..][item.value.used..] == before[next..];
        var rest := DecodeSubspaces(count - 1, attributes, Some(item.value.value.regions), before[next..]);
        if rest.Some? { Assoc(done, [item.value.value], rest.value.value); }
      }
    }

    lemma FixedWidths(bytes: Bytes, attributes: nat)
      ensures ReadBe(bytes, 8).Some? ==> ReadBe(bytes, 8).value.used == 8
      ensures DecodeIndex(attributes, bytes).Some? ==> DecodeIndex(attributes, bytes).value.used == 2
    {
      hide FromBe;
    }

    method SkipSecondaryIndex(attributes: nat) returns (r: Option<()>)
      requires Valid()
      modifies this
      ensures Valid() && Consumed(r, DecodeSecondaryIndex(attributes, old(Rest())), old(Rest()), Rest())
    {
      hide DecodeSlice, FromBe, ReadBe, DecodeIndex;
      ghost var before := Rest();
      var kind := ReadExact(1);
      if kind.None? || kind.value[0] > 1 {
        return None;
      }
      FixedWidths(before[1..], attributes);
      var id := ReadUint(8);
      if id.None? {
        return None;
      }
      SkipTwice(before, 1, 8);
      FixedWidths(before[9..], attributes);
      var attribute := ReadIndex(attributes);
      if attribute.None? {
        return None;
      }
      SkipTwice(before, 9, 2);
      var extra := ReadSlice();
      if extra.None? {
        return None;
      }
      ghost var used := DecodeSlice(before[11..]).value.used;
      SkipTwice(before, 11, used);
      r := Some(());
    }

    method SkipSecondaryIndexes(count: nat, attributes: nat) returns (r: Option<()>)
      requires Valid()
      modifies this
      ensures Valid()
      ensures var spec := DecodeItems(count, old(Rest()), SecondaryIndexDecoder(attributes));
        && (r.Some? <==> spec.Some?)
        && (r.Some? ==> Rest() == old(Rest())[spec.value.used..])
    {
      hide DecodeItems, DecodeSecondaryIndex, After;
      ghost var before := Rest();
      ghost var dec := SecondaryIndexDecoder(attributes);
      ghost var items: seq<()> := [];
      ghost var used: nat := 0;
      AfterNothing(DecodeItems(count, before, dec));
      for i := 0 to count
        invariant Valid() && used <= |before| && Rest() == before[used..]
        invariant DecodeItems(count, before, dec) == After(items, used, DecodeItems(count - i, before[used..], dec))
      {
        NextItem(before, used, items, count - i, dec);
        ghost var spec := DecodeSecondaryIndex(attributes, Rest());
        var index := SkipSecondaryIndex(attributes);
        if index.None? {
          return None;
        }
        SkipTwice(before, used, spec.value.used);
        used := used + spec.value.used;
        items := items + [spec.value.value];
      }
      AfterAll(items, used, before[used..], dec);
      r := Some(());
    }

    /** The counted lists and the end of the input. */
    method ReadBody(name: Name, tolerance: nat, attributes: nat, subspaces: nat, indices: nat) returns (r: Option<RawSpace>)
      requires Valid()
      modifies this
      ensures r == ReadLists(name, tolerance, attributes, subspaces, indices, old(Rest()))
    {
      hide DecodeItems, DecodeAttribute, DecodeSubspaces, SecondaryIndexDecoder, AllBelow;
      ghost var before := Rest();
      var attrs := ReadAttributes(attributes);
      if attrs.None? || attrs.value == [] || attrs.value[0].datatype_ == SECRET_CODE {
        return None;
      }
      ghost var afterAttrs := Rest();
      var packed := ReadSubspaces(subspaces, attributes);
      if packed.None? {
        return None;
      }
      var skipped := SkipSecondaryIndexes(indices, attributes);
      if skipped.None? || cursor != |bytes| {
        return None;
      }
      r := Some(RawSpace(name, tolerance, attrs.value, packed.value));
    }

    method ReadPacked() returns (r: Option<RawSpace>)
      requires Valid()
      modifies this
      ensures r == ReadSpace(old(Rest()))
    {
      hide ReadBe, ReadText, ReadLists, InRangeRaw;
      var id := ReadUint(8);
      if id.None? {
        return None;
      }
      var name := ReadString();
      if name.None? {
        return None;
      }
      var tolerance := ReadUint(8);
      if tolerance.None? {
        return None;
      }
      var attributes := ReadUint(2);
      if attributes.None? {
        return None;
      }
      var subspaces := ReadUint(2);
      if subspaces.None? {
        return None;
      }
      var indices := ReadUint(2);
      if indices.None? {
        return None;
      }
      r := ReadBody(name.value, tolerance.value, attributes.value, subspaces.value, indices.value);
    }
  }

  method DecodePackedSpace(bytes: Bytes) returns (r: Option<Space>)
    ensures r == DecodeSpace(bytes)
  {
    hide ReadSpace, Assemble;
    var decoder := new PackedSpaceDecoder(bytes);
    var raw := decoder.ReadPacked();
    r := if raw.None? then None else Assemble(raw.value);
  }
}
