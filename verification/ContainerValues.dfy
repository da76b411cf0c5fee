/** Attribute values on the legacy wire: scalars as raw bytes, containers as
    their elements end to end (crates/server). */
module ContainerValues {
  import opened Base
  import opened DataModel
  import opened KeyOrder
  import opened Wire

  // -------------------------------------------------------------------- scalars

  /** A signed 64-bit integer, little-endian in two's complement. */
  function LeI64(x: i64): (b: Bytes)
    ensures |b| == 8
  {
    Le(if x < 0 then x + TWO_64 else x, 8)
  }

  /** The first eight bytes; longer input is accepted and cut off. */
  function DecodeI64(bytes: Bytes): Option<i64> {
    if |bytes| < 8 then None
    else
      LeOfFromLe(bytes[..8]);
      Widths();
      var n: u64 := FromLe(bytes[..8]);
      Some(if n >= TWO_63 then n - TWO_64 else n)
  }

  function DecodeF64(bytes: Bytes): Option<u64> {
    if |bytes| < 8 then None
    else
      LeOfFromLe(bytes[..8]);
      Widths();
      Some(FromLe(bytes[..8]))
  }

  function AsBytes(value: Value): Option<Bytes> {
    match value
    case Blob(bytes) => Some(bytes)
    case Text(utf8) => Some(utf8)
    case _ => None
  }

  lemma I64RoundTrip(x: i64, rest: Bytes)
    ensures DecodeI64(LeI64(x) + rest) == Some(x)
  {
    Widths();
    FromLeOfLe(if x < 0 then x + TWO_64 else x, 8);
    assert (LeI64(x) + rest)[..8] == LeI64(x);
  }

  lemma F64RoundTrip(bits: u64, rest: Bytes)
    ensures DecodeF64(Le(bits, 8) + rest) == Some(bits)
  {
    Widths();
    FromLeOfLe(bits, 8);
    assert (Le(bits, 8) + rest)[..8] == Le(bits, 8);
  }

  /** The eight bytes a number was read from are its encoding. */
  lemma I64Canonical(bytes: Bytes)
    requires |bytes| >= 8
    ensures LeI64(DecodeI64(bytes).value) == bytes[..8]
  {
    LeOfFromLe(bytes[..8]);
  }

  // ------------------------------------------------------------------- elements

  function EncodeElement(kind: ValueKind, value: Value): (r: Option<Bytes>)
    ensures r.Some? ==> |r.value| >= 4
  {
    match kind
    case KBytes | KString | KDocument =>
      var bytes :- AsBytes(value);
      if |bytes| >= 0x1_0000_0000 then None else Some(Le(|bytes|, 4) + bytes)
    case KInt => if value.Int? then Some(LeI64(value.i)) else None
    case KFloat => if value.Float? then Some(Le(value.bits, 8)) else None
    case _ => None
  }

  function DecodeElement(kind: ValueKind, bytes: Bytes): (r: Option<Parsed<Value>>)
    ensures r.Some? ==> 4 <= r.value.used <= |bytes|
  {
    match kind
    case KBytes | KString | KDocument =>
      if |bytes| < 4 then None
      else
        var size := FromLe(bytes[..4]);
        if |bytes| < 4 + size then None else Some(Parsed(Blob(bytes[4..4 + size]), 4 + size))
    case KInt =>
      var i :- DecodeI64(bytes);
      Some(Parsed(Int(i), 8))
    case KFloat =>
      var bits :- DecodeF64(bytes);
      Some(Parsed(Float(bits), 8))
    case _ => None
  }

  /** What is left of a string once it has been on the wire. */
  function Plain(value: Value): Value { if value.Text? then Blob(value.utf8) else value }

  lemma ElementRoundTrip(kind: ValueKind, value: Value, rest: Bytes)
    requires EncodeElement(kind, value).Some?
    ensures var encoded := EncodeElement(kind, value).value;
      DecodeElement(kind, encoded + rest) == Some(Parsed(Plain(value), |encoded|))
  {
    if kind.KInt? {
      I64RoundTrip(value.i, rest);
    } else if kind.KFloat? {
      F64RoundTrip(value.bits, rest);
    } else if Stringlike(kind) {
      var bytes := AsBytes(value).value;
      Widths();
      FromLeOfLe(|bytes|, 4);
      BlobAfterSize(Le(|bytes|, 4), bytes, rest);
    }
  }

  predicate Stringlike(kind: ValueKind) { kind.KBytes? || kind.KString? || kind.KDocument? }

  lemma BlobAfterSize(size: Bytes, bytes: Bytes, rest: Bytes)
    requires |size| == 4
    ensures var all := size + bytes + rest;
      |all| >= 4 + |bytes| && all[..4] == size && all[4..4 + |bytes|] == bytes
  {
  }

  /** The bytes that a decoded element took up are its encoding. */
  lemma ElementCanonical(kind: ValueKind, bytes: Bytes)
    requires DecodeElement(kind, bytes).Some?
    ensures var r := DecodeElement(kind, bytes).value;
      EncodeElement(kind, r.value) == Some(bytes[..r.used]) && OfKind(kind, r.value)
  {
    if kind.KInt? {
      I64Canonical(bytes);
    } else if kind.KFloat? {
      LeOfFromLe(bytes[..8]);
    } else if Stringlike(kind) {
      LeOfFromLe(bytes[..4]);
      Widths();
      var size := FromLe(bytes[..4]);
      assert bytes[..4] + bytes[4..4 + size] == bytes[..4 + size];
    }
  }

  predicate OfKind(kind: ValueKind, value: Value) {
    match kind
    case KBytes | KString | KDocument => value.Blob?
    case KInt => value.Int?
    case KFloat => value.Float?
    case _ => false
  }

  // ------------------------------------------------------------------ sequences

  function EncodeElements(kind: ValueKind, values: seq<Value>): Option<Bytes> {
    if values == [] then Some([])
    else
      var first :- EncodeElement(kind, values[0]);
      var rest :- EncodeElements(kind, values[1..]);
      Some(first + rest)
  }

  function DecodeElements(kind: ValueKind, bytes: Bytes): Option<seq<Value>>
    decreases |bytes|
  {
    if bytes == [] then Some([])
    else
      var first :- DecodeElement(kind, bytes);
      var rest :- DecodeElements(kind, bytes[first.used..]);
      Some([first.value] + rest)
  }

  /** A map entry is its key followed by its value. */
  function EncodeEntry(keyKind: ValueKind, valueKind: ValueKind, entry: Entry): Option<Bytes> {
    var key :- EncodeElement(keyKind, entry.key);
    var value :- EncodeElement(valueKind, entry.value);
    Some(key + value)
  }

  function DecodeEntry(keyKind: ValueKind, valueKind: ValueKind, bytes: Bytes): (r: Option<Parsed<Entry>>)
    ensures r.Some? ==> 4 <= r.value.used <= |bytes|
  {
    var key :- DecodeElement(keyKind, bytes);
    var value :- DecodeElement(valueKind, bytes[key.used..]);
    Some(Parsed(Entry(key.value, value.value), key.used + value.used))
  }

  function EncodeEntries(keyKind: ValueKind, valueKind: ValueKind, entries: seq<Entry>): Option<Bytes> {
    if entries == [] then Some([])
    else
      var first :- EncodeEntry(keyKind, valueKind, entries[0]);
      var rest :- EncodeEntries(keyKind, valueKind, entries[1..]);
      Some(first + rest)
  }

  function DecodeEntries(keyKind: ValueKind, valueKind: ValueKind, bytes: Bytes): Option<seq<Entry>>
    decreases |bytes|
  {
    if bytes == [] then Some([])
    else
      var first :- DecodeEntry(keyKind, valueKind, bytes);
      var rest :- DecodeEntries(keyKind, valueKind, bytes[first.used..]);
      Some([first.value] + rest)
  }

  function InsertValues(s: seq<Value>, values: seq<Value>): seq<Value>
    decreases |values|
  {
    if values == [] then s else InsertValues(InsertValue(s, values[0]), values[1..])
  }

  function InsertEntries(s: seq<Entry>, entries: seq<Entry>): seq<Entry>
    decreases |entries|
  {
    if entries == [] then s else InsertEntries(InsertEntry(s, entries[0].key, entries[0].value), entries[1..])
  }

  // ---------------------------------------------------------------- whole values

  function EncodeValue(kind: ValueKind, value: Value): Option<Bytes> {
    match kind
    case KBytes | KString | KDocument => AsBytes(value)
    case KInt => if value.Int? then Some(LeI64(value.i)) else None
    case KFloat => if value.Float? then Some(Le(value.bits, 8)) else None
    case KList(elem) => if value.List? then EncodeElements(elem, value.items) else None
    case KSet(elem) => if value.Set? then EncodeElements(elem, value.members) else None
    case KMap(k, v) => if value.Map? then EncodeEntries(k, v, value.entries) else None
    case KBool | KTimestamp(_) => None
  }

  function DecodeValue(kind: ValueKind, bytes: Bytes): Option<Value> {
    match kind
    case KBytes | KString | KDocument => Some(Blob(bytes))
    case KInt =>
      var i :- DecodeI64(bytes);
      Some(Int(i))
    case KFloat =>
      var bits :- DecodeF64(bytes);
      Some(Float(bits))
    case KList(elem) =>
      var items :- DecodeElements(elem, bytes);
      Some(List(items))
    case KSet(elem) =>
      var items :- DecodeElements(elem, bytes);
      Some(Set(InsertValues([], items)))
    case KMap(k, v) =>
      var entries :- DecodeEntries(k, v, bytes);
      Some(Map(InsertEntries([], entries)))
    case KBool | KTimestamp(_) => None
  }

  // ----------------------------------------------------------------------- loops

  method EncodeElementsLoop(kind: ValueKind, values: seq<Value>) returns (r: Option<Bytes>)
    ensures r == EncodeElements(kind, values)
  {
    hide EncodeElement;
    var out: Bytes := [];
    ResumeNothing(EncodeElements(kind, values));
    assert values[0..] == values;
    for i := 0 to |values|
      invariant Resume(out, EncodeElements(kind, values[i..])) == EncodeElements(kind, values)
    {
      assert values[i..][1..] == values[i + 1..];
      var encoded := EncodeElement(kind, values[i]);
      if encoded.None? {
        return None;
      }
      ResumeMore(out, encoded.value, EncodeElements(kind, values[i + 1..]));
      out := out + encoded.value;
    }
    assert values[|values|..] == [] && out + [] == out;
    r := Some(out);
  }

  method EncodeEntriesLoop(keyKind: ValueKind, valueKind: ValueKind, entries: seq<Entry>) returns (r: Option<Bytes>)
    ensures r == EncodeEntries(keyKind, valueKind, entries)
  {
    hide EncodeElement;
    var out: Bytes := [];
    ResumeNothing(EncodeEntries(keyKind, valueKind, entries));
    assert entries[0..] == entries;
    for i := 0 to |entries|
      invariant Resume(out, EncodeEntries(keyKind, valueKind, entries[i..])) == EncodeEntries(keyKind, valueKind, entries)
    {
      assert entries[i..][1..] == entries[i + 1..];
      var key := EncodeElement(keyKind, entries[i].key);
      if key.None? {
        return None;
      }
      var value := EncodeElement(valueKind, entries[i].value);
      if value.None? {
        return None;
      }
      ResumeMore(out, key.value + value.value, EncodeEntries(keyKind, valueKind, entries[i + 1..]));
      Assoc(out, key.value, value.value);
      out := out + key.value;
      out := out + value.value;
    }
    assert entries[|entries|..] == [] && out + [] == out;
    r := Some(out);
  }

  method DecodeListLoop(kind: ValueKind, bytes: Bytes) returns (r: Option<seq<Value>>)
    ensures r == DecodeElements(kind, bytes)
  {
    hide DecodeElement;
    var offset: nat := 0;
    var values: seq<Value> := [];
    ResumeNothing(DecodeElements(kind, bytes));
    assert bytes[0..] == bytes;
    while offset < |bytes|
      invariant offset <= |bytes|
      invariant Resume(values, DecodeElements(kind, bytes[offset..])) == DecodeElements(kind, bytes)
    {
      var element := DecodeElement(kind, bytes[offset..]);
      if element.None? {
        return None;
      }
      assert bytes[offset..][element.value.used..] == bytes[offset + element.value.used..];
      ResumeMore(values, [element.value.value], DecodeElements(kind, bytes[offset + element.value.used..]));
      values := values + [element.value.value];
      offset := offset + element.value.used;
    }
    assert bytes[offset..] == [] && values + [] == values;
    r := Some(values);
  }

  /** A set grown from `s` by what the rest of the input holds. */
  function GrowSet(s: seq<Value>, rest: Option<seq<Value>>): Option<seq<Value>> {
    if rest.None? then None else Some(InsertValues(s, rest.value))
  }

  function GrowMap(s: seq<Entry>, rest: Option<seq<Entry>>): Option<seq<Entry>> {
    if rest.None? then None else Some(InsertEntries(s, rest.value))
  }

  method DecodeSetLoop(kind: ValueKind, bytes: Bytes) returns (r: Option<Value>)
    ensures r == DecodeValue(KSet(kind), bytes)
  {
    hide DecodeElement, InsertValue;
    var offset: nat := 0;
    var members: seq<Value> := [];
    assert bytes[0..] == bytes;
    while offset < |bytes|
      invariant offset <= |bytes|
      invariant GrowSet(members, DecodeElements(kind, bytes[offset..])) == GrowSet([], DecodeElements(kind, bytes))
    {
      var element := DecodeElement(kind, bytes[offset..]);
      if element.None? {
        return None;
      }
      NextMember(members, bytes, offset, kind);
      members := InsertValue(members, element.value.value);
      offset := offset + element.value.used;
    }
    assert bytes[offset..] == [];
    r := Some(Set(members));
  }

  lemma NextMember(members: seq<Value>, bytes: Bytes, offset: nat, kind: ValueKind)
    requires offset < |bytes| && DecodeElement(kind, bytes[offset..]).Some?
    ensures var element := DecodeElement(kind, bytes[offset..]).value;
      GrowSet(members, DecodeElements(kind, bytes[offset..]))
      == GrowSet(InsertValue(members, element.value), DecodeElements(kind, bytes[offset + element.used..]))
  {
    hide DecodeElement, InsertValue;
    var element := DecodeElement(kind, bytes[offset..]).value;
    assert bytes[offset..][element.used..] == bytes[offset + element.used..];
    var rest := DecodeElements(kind, bytes[offset + element.used..]);
    if rest.Some? { assert ([element.value] + rest.value)[1..] == rest.value; }
  }

  method DecodeMapLoop(keyKind: ValueKind, valueKind: ValueKind, bytes: Bytes) returns (r: Option<Value>)
    ensures r == DecodeValue(KMap(keyKind, valueKind), bytes)
  {
    hide DecodeElement, DecodeEntries, GrowMap, InsertEntry;
    var offset: nat := 0;
    var entries: seq<Entry> := [];
    assert bytes[0..] == bytes;
    while offset < |bytes|
      invariant offset <= |bytes|
      invariant GrowMap(entries, DecodeEntries(keyKind, valueKind, bytes[offset..]))
             == GrowMap([], DecodeEntries(keyKind, valueKind, bytes))
    {
      NextEntry(entries, bytes, offset, keyKind, valueKind);
      var key := DecodeElement(keyKind, bytes[offset..]);
      if key.None? {
        MapStops(bytes, keyKind, valueKind);
        return None;
      }
      var after := offset + key.value.used;
      assert bytes[offset..][key.value.used..] == bytes[after..];
      var value := DecodeElement(valueKind, bytes[after..]);
      if value.None? {
        MapStops(bytes, keyKind, valueKind);
        return None;
      }
      offset := after + value.value.used;
      entries := InsertEntry(entries, key.value.value, value.value.value);
    }
    MapDone(entries, bytes, offset, keyKind, valueKind);
    r := Some(Map(entries));
  }

  lemma MapStops(bytes: Bytes, keyKind: ValueKind, valueKind: ValueKind)
    requires GrowMap([], DecodeEntries(keyKind, valueKind, bytes)).None?
    ensures DecodeValue(KMap(keyKind, valueKind), bytes).None?
  {
    hide DecodeEntries;
  }

  lemma MapDone(entries: seq<Entry>, bytes: Bytes, offset: nat, keyKind: ValueKind, valueKind: ValueKind)
    requires offset == |bytes|
    requires GrowMap(entries, DecodeEntries(keyKind, valueKind, bytes[offset..]))
          == GrowMap([], DecodeEntries(keyKind, valueKind, bytes))
    ensures DecodeValue(KMap(keyKind, valueKind), bytes) == Some(Map(entries))
  {
    assert DecodeEntries(keyKind, valueKind, bytes[offset..]) == Some([]);
    hide DecodeEntries;
  }

  lemma NextEntry(entries: seq<Entry>, bytes: Bytes, offset: nat, keyKind: ValueKind, valueKind: ValueKind)
    requires offset < |bytes|
    ensures var first := DecodeEntry(keyKind, valueKind, bytes[offset..]);
      GrowMap(entries, DecodeEntries(keyKind, valueKind, bytes[offset..]))
      == if first.None? then None
         else GrowMap(InsertEntry(entries, first.value.value.key, first.value.value.value),
                      DecodeEntries(keyKind, valueKind, bytes[offset + first.value.used..]))
  {
    hide DecodeEntry, InsertEntry;
    var first := DecodeEntry(keyKind, valueKind, bytes[offset..]);
    if first.Some? {
      assert bytes[offset..][first.value.used..] == bytes[offset + first.value.used..];
      var rest := DecodeEntries(keyKind, valueKind, bytes[offset + first.value.used..]);
      if rest.Some? { assert ([first.value.value] + rest.value)[1..] == rest.value; }
    }
  }

  // ----------------------------------------------------------------- round trips

  function PlainValues(values: seq<Value>): seq<Value> {
    if values == [] then [] else [Plain(values[0])] + PlainValues(values[1..])
  }

  function PlainEntries(entries: seq<Entry>): seq<Entry> {
    if entries == [] then []
    else [Entry(Plain(entries[0].key), Plain(entries[0].value))] + PlainEntries(entries[1..])
  }

  lemma {:induction false} ElementsRoundTrip(kind: ValueKind, values: seq<Value>)
    requires EncodeElements(kind, values).Some?
    ensures DecodeElements(kind, EncodeElements(kind, values).value) == Some(PlainValues(values))
  {
    if values != [] {
      hide EncodeElement, DecodeElement, Plain;
      var first, rest := EncodeElement(kind, values[0]).value, EncodeElements(kind, values[1..]).value;
      ElementsRoundTrip(kind, values[1..]);
      ElementRoundTrip(kind, values[0], rest);
      assert (first + rest)[|first|..] == rest;
    }
  }

  lemma {:induction false} EntriesRoundTrip(keyKind: ValueKind, valueKind: ValueKind, entries: seq<Entry>)
    requires EncodeEntries(keyKind, valueKind, entries).Some?
    ensures DecodeEntries(keyKind, valueKind, EncodeEntries(keyKind, valueKind, entries).value) == Some(PlainEntries(entries))
  {
    if entries != [] {
      hide EncodeEntry, DecodeEntry, Plain;
      var first := EncodeEntry(keyKind, valueKind, entries[0]).value;
      var rest := EncodeEntries(keyKind, valueKind, entries[1..]).value;
      EntriesRoundTrip(keyKind, valueKind, entries[1..]);
      EntryRoundTrip(keyKind, valueKind, entries[0], rest);
      assert (first + rest)[|first|..] == rest;
    }
  }

  lemma EntryRoundTrip(keyKind: ValueKind, valueKind: ValueKind, entry: Entry, rest: Bytes)
    requires EncodeEntry(keyKind, valueKind, entry).Some?
    ensures var encoded := EncodeEntry(keyKind, valueKind, entry).value;
      DecodeEntry(keyKind, valueKind, encoded + rest)
      == Some(Parsed(Entry(Plain(entry.key), Plain(entry.value)), |encoded|)) && |encoded| >= 4
  {
    hide EncodeElement, DecodeElement, Plain;
    var key, value := EncodeElement(keyKind, entry.key).value, EncodeElement(valueKind, entry.value).value;
    Assoc(key, value, rest);
    ElementRoundTrip(keyKind, entry.key, value + rest);
    ElementRoundTrip(valueKind, entry.value, rest);
    assert (key + (value + rest))[|key|..] == value + rest;
  }

  /** Set and map values come with their members in order, as trees hold them. */
  predicate Ordered(value: Value) {
    match value
    case Set(members) => SortedValues(members)
    case Map(entries) => SortedEntries(entries)
    case _ => true
  }

  /** The wire does not tell a string from a byte string. */
  predicate HoldsText(value: Value) {
    match value
    case Text(_) => true
    case List(items) => exists v :: v in items && v.Text?
    case Set(members) => exists v :: v in members && v.Text?
    case Map(entries) => exists e :: e in entries && (e.key.Text? || e.value.Text?)
    case _ => false
  }

  lemma {:induction false} PlainValuesSame(values: seq<Value>)
    ensures PlainValues(values) == values <==> !exists v :: v in values && v.Text?
  {
    if values != [] {
      PlainValuesSame(values[1..]);
      assert values == [values[0]] + values[1..];
    }
  }

  lemma {:induction false} PlainEntriesSame(entries: seq<Entry>)
    requires !exists e :: e in entries && (e.key.Text? || e.value.Text?)
    ensures PlainEntries(entries) == entries
  {
    if entries != [] {
      PlainEntriesSame(entries[1..]);
      assert entries[0] in entries;
      assert entries == [entries[0]] + entries[1..];
    }
  }

  /** Inserting what is already in order appends it. */
  lemma {:induction false} InsertSorted(done: seq<Value>, rest: seq<Value>)
    requires SortedValues(done + rest)
    ensures InsertValues(done, rest) == done + rest
    decreases |rest|
  {
    hide Compare;
    if rest == [] {
      assert done + rest == done;
    } else {
      var all := done + rest;
      forall i | 0 <= i < |done| ensures Compare(done[i], rest[0]) < 0 {
        assert all[i] == done[i] && all[|done|] == rest[0];
      }
      InsertValueAtEnd(done, rest[0]);
      assert done + rest == (done + [rest[0]]) + rest[1..];
      InsertSorted(done + [rest[0]], rest[1..]);
    }
  }

  lemma {:induction false} InsertSortedEntries(done: seq<Entry>, rest: seq<Entry>)
    requires SortedEntries(done + rest)
    ensures InsertEntries(done, rest) == done + rest
    decreases |rest|
  {
    hide Compare;
    if rest == [] {
      assert done + rest == done;
    } else {
      var all := done + rest;
      forall i | 0 <= i < |done| ensures Compare(done[i].key, rest[0].key) < 0 {
        assert all[i] == done[i] && all[|done|] == rest[0];
      }
      InsertEntryAtEnd(done, rest[0].key, rest[0].value);
      assert done + rest == (done + [rest[0]]) + rest[1..];
      InsertSortedEntries(done + [rest[0]], rest[1..]);
    }
  }

  /** A value that can be encoded comes back as it was exactly when it holds no
      string: strings come back as byte strings. */
  lemma ValueRoundTrip(kind: ValueKind, value: Value)
    requires Ordered(value) && EncodeValue(kind, value).Some?
    ensures DecodeValue(kind, EncodeValue(kind, value).value) == Some(value) <==> !HoldsText(value)
  {
    hide InsertValues, InsertEntries, EncodeElements, DecodeElements, EncodeEntries, DecodeEntries, Compare;
    match kind
    case KInt => ScalarRoundTrip(kind, value);
    case KFloat => ScalarRoundTrip(kind, value);
    case KList(elem) =>
      ElementsRoundTrip(elem, value.items);
      PlainValuesSame(value.items);
    case KSet(elem) => SetRoundTrip(elem, value);
    case KMap(k, v) => MapRoundTrip(k, v, value);
    case _ =>
  }

  lemma ScalarRoundTrip(kind: ValueKind, value: Value)
    requires kind.KInt? || kind.KFloat?
    requires EncodeValue(kind, value).Some?
    ensures DecodeValue(kind, EncodeValue(kind, value).value) == Some(value) && !HoldsText(value)
  {
    var encoded := EncodeValue(kind, value).value;
    assert encoded + [] == encoded;
    if kind.KInt? { I64RoundTrip(value.i, []); } else { F64RoundTrip(value.bits, []); }
  }

  lemma SetRoundTrip(elem: ValueKind, value: Value)
    requires value.Set? && Ordered(value) && EncodeElements(elem, value.members).Some?
    ensures DecodeValue(KSet(elem), EncodeElements(elem, value.members).value) == Some(value) <==> !HoldsText(value)
  {
    hide EncodeElements, DecodeElements, Compare, SortedValues;
    ElementsRoundTrip(elem, value.members);
    PlainValuesSame(value.members);
    if HoldsText(value) {
      PlainHasNoText(value.members);
      InsertedFrom([], PlainValues(value.members));
    } else {
      assert [] + value.members == value.members;
      InsertSorted([], value.members);
    }
  }

  lemma MapRoundTrip(k: ValueKind, v: ValueKind, value: Value)
    requires value.Map? && Ordered(value) && EncodeEntries(k, v, value.entries).Some?
    ensures DecodeValue(KMap(k, v), EncodeEntries(k, v, value.entries).value) == Some(value) <==> !HoldsText(value)
  {
    hide EncodeEntries, DecodeEntries, Compare, SortedEntries;
    EntriesRoundTrip(k, v, value.entries);
    if HoldsText(value) {
      PlainHasNoTextEntries(value.entries);
      InsertedEntriesFrom([], PlainEntries(value.entries));
    } else {
      PlainEntriesSame(value.entries);
      assert [] + value.entries == value.entries;
      InsertSortedEntries([], value.entries);
    }
  }

  lemma {:induction false} PlainHasNoText(values: seq<Value>)
    ensures forall v :: v in PlainValues(values) ==> !v.Text?
  {
    if values != [] { PlainHasNoText(values[1..]); }
  }

  lemma {:induction false} PlainHasNoTextEntries(entries: seq<Entry>)
    ensures forall e :: e in PlainEntries(entries) ==> !e.key.Text? && !e.value.Text?
  {
    if entries != [] { PlainHasNoTextEntries(entries[1..]); }
  }

  lemma {:induction false} InsertOneFrom(s: seq<Value>, v: Value)
    ensures forall x :: x in InsertValue(s, v) ==> x in s || x == v
  {
    hide Compare;
    if s != [] { InsertOneFrom(s[1..], v); }
  }

  /** A set holds nothing but what was inserted into it. */
  lemma {:induction false} InsertedFrom(s: seq<Value>, values: seq<Value>)
    ensures forall x :: x in InsertValues(s, values) ==> x in s || x in values
    decreases |values|
  {
    if values != [] {
      InsertOneFrom(s, values[0]);
      InsertedFrom(InsertValue(s, values[0]), values[1..]);
    }
  }

  predicate EntryFrom(e: Entry, s: seq<Entry>) {
    (exists x :: x in s && x.key == e.key) && (exists x :: x in s && x.value == e.value)
  }

  lemma {:induction false} InsertOneEntryFrom(s: seq<Entry>, key: Value, value: Value)
    ensures forall e :: e in InsertEntry(s, key, value) ==> EntryFrom(e, s + [Entry(key, value)])
  {
    hide Compare;
    if s != [] {
      InsertOneEntryFrom(s[1..], key, value);
      var all := s + [Entry(key, value)];
      assert s[0] in all && Entry(key, value) in all;
      forall e | e in InsertEntry(s, key, value) ensures EntryFrom(e, all) {
        if e in InsertEntry(s[1..], key, value) {
          assert forall x :: x in s[1..] + [Entry(key, value)] ==> x in all;
        } else if e in s {
          assert e in all;
        }
      }
    }
  }

  lemma {:induction false} InsertedEntriesFrom(s: seq<Entry>, entries: seq<Entry>)
    requires forall e :: e in s + entries ==> !e.key.Text? && !e.value.Text?
    ensures forall e :: e in InsertEntries(s, entries) ==> !e.key.Text? && !e.value.Text?
    decreases |entries|
  {
    if entries != [] {
      var next := InsertEntry(s, entries[0].key, entries[0].value);
      InsertOneEntryFrom(s, entries[0].key, entries[0].value);
      assert s + entries == s + [entries[0]] + entries[1..];
      InsertedEntriesFrom(next, entries[1..]);
    }
  }

  /** The bytes of a list are determined by its elements: what was decoded
      encodes to the same bytes. */
  lemma {:induction false} ListCanonical(kind: ValueKind, bytes: Bytes)
    requires DecodeElements(kind, bytes).Some?
    ensures EncodeElements(kind, DecodeElements(kind, bytes).value) == Some(bytes)
    ensures forall v :: v in DecodeElements(kind, bytes).value ==> OfKind(kind, v)
    decreases |bytes|
  {
    if bytes != [] {
      hide EncodeElement, DecodeElement, OfKind;
      var first := DecodeElement(kind, bytes).value;
      ElementCanonical(kind, bytes);
      ListCanonical(kind, bytes[first.used..]);
      var rest := DecodeElements(kind, bytes[first.used..]).value;
      assert ([first.value] + rest)[1..] == rest;
      assert bytes == bytes[..first.used] + bytes[first.used..];
    }
  }

  // ------------------------------------------------- what decoding can result in

  /** A value of this element kind that the wire can carry. */
  predicate Carried(kind: ValueKind, value: Value) { OfKind(kind, value) && EncodeElement(kind, value).Some? }

  predicate AllCarried(kind: ValueKind, values: seq<Value>) { forall v :: v in values ==> Carried(kind, v) }

  predicate EntryCarried(keyKind: ValueKind, valueKind: ValueKind, entry: Entry) {
    Carried(keyKind, entry.key) && Carried(valueKind, entry.value)
  }

  predicate AllEntriesCarried(keyKind: ValueKind, valueKind: ValueKind, entries: seq<Entry>) {
    forall e :: e in entries ==> EntryCarried(keyKind, valueKind, e)
  }

  /** Elements of one kind are totally ordered. */
  lemma CarriedTransitive(kind: ValueKind, a: Value, b: Value, c: Value)
    requires OfKind(kind, a) && OfKind(kind, b) && OfKind(kind, c)
    requires Compare(a, b) < 0 && Compare(b, c) < 0
    ensures Compare(a, c) < 0
  {
    if Stringlike(kind) { CompareBytesTransitive(a.bytes, b.bytes, c.bytes); }
  }

  lemma CompareFlips(a: Value, b: Value)
    ensures Compare(a, b) == -Compare(b, a)
  {
    CompareAntisymmetric(a, b);
  }

  predicate Below(v: Value, s: seq<Value>) { forall x :: x in s ==> Compare(v, x) < 0 }

  lemma ConsSorted(v: Value, s: seq<Value>)
    requires SortedValues(s) && Below(v, s)
    ensures SortedValues([v] + s)
  {
    hide Compare;
  }

  lemma SortedTail(s: seq<Value>)
    requires s != [] && SortedValues(s)
    ensures SortedValues(s[1..]) && Below(s[0], s[1..])
  {
    hide Compare;
  }

  lemma {:induction false} InsertKeepsSorted(kind: ValueKind, s: seq<Value>, v: Value)
    requires SortedValues(s) && AllCarried(kind, s) && Carried(kind, v)
    ensures SortedValues(InsertValue(s, v)) && AllCarried(kind, InsertValue(s, v))
  {
    hide Compare, Carried, SortedValues;
    InsertOneFrom(s, v);
    if s == [] {
      OneSorted(v);
    } else {
      SortedTail(s);
      InsertKeepsSorted(kind, s[1..], v);
      InsertOneFrom(s[1..], v);
      var c := Compare(s[0], v);
      if c < 0 {
        ConsSorted(s[0], InsertValue(s[1..], v));
      } else if c > 0 {
        CompareFlips(s[0], v);
        BelowAll(kind, v, s);
        ConsSorted(v, s);
      }
    }
  }

  lemma OneSorted(v: Value)
    ensures SortedValues([v])
  {
  }

  lemma BelowAll(kind: ValueKind, v: Value, s: seq<Value>)
    requires s != [] && Below(s[0], s[1..]) && Compare(v, s[0]) < 0
    requires AllCarried(kind, s) && Carried(kind, v)
    ensures Below(v, s)
  {
    hide Compare, OfKind, EncodeElement;
    forall x | x in s ensures Compare(v, x) < 0 {
      if x != s[0] {
        assert x in s[1..] && s[0] in s;
        assert Carried(kind, x) && Carried(kind, s[0]);
        CarriedTransitive(kind, v, s[0], x);
      }
    }
  }

  lemma {:induction false} InsertAllSorted(kind: ValueKind, s: seq<Value>, values: seq<Value>)
    requires SortedValues(s) && AllCarried(kind, s) && AllCarried(kind, values)
    ensures SortedValues(InsertValues(s, values)) && AllCarried(kind, InsertValues(s, values))
    decreases |values|
  {
    hide Compare, Carried, SortedValues;
    if values != [] {
      InsertKeepsSorted(kind, s, values[0]);
      InsertAllSorted(kind, InsertValue(s, values[0]), values[1..]);
    }
  }

  function KeysOfEntries(s: seq<Entry>): (keys: seq<Value>)
    ensures |keys| == |s| && forall i :: 0 <= i < |s| ==> keys[i] == s[i].key
  {
    if s == [] then [] else [s[0].key] + KeysOfEntries(s[1..])
  }

  /** The keys of a map behave as the members of a set. */
  lemma {:induction false} InsertEntryKeys(s: seq<Entry>, key: Value, value: Value)
    ensures KeysOfEntries(InsertEntry(s, key, value)) == InsertValue(KeysOfEntries(s), key)
  {
    hide Compare;
    if s != [] {
      InsertEntryKeys(s[1..], key, value);
      assert KeysOfEntries(s)[1..] == KeysOfEntries(s[1..]);
      if Compare(s[0].key, key) == 0 {
        assert ([Entry(s[0].key, value)] + s[1..])[1..] == s[1..];
      } else if Compare(s[0].key, key) > 0 {
        assert ([Entry(key, value)] + s)[1..] == s;
      } else {
        assert ([s[0]] + InsertEntry(s[1..], key, value))[1..] == InsertEntry(s[1..], key, value);
      }
    }
  }

  lemma KeysSorted(s: seq<Entry>)
    ensures SortedValues(KeysOfEntries(s)) <==> SortedEntries(s)
  {
    hide Compare, KeysOfEntries;
  }

  lemma KeysCarried(keyKind: ValueKind, valueKind: ValueKind, s: seq<Entry>)
    requires AllEntriesCarried(keyKind, valueKind, s)
    ensures AllCarried(keyKind, KeysOfEntries(s))
  {
    hide Carried, KeysOfEntries;
    var keys := KeysOfEntries(s);
    forall v | v in keys ensures Carried(keyKind, v) {
      var i :| 0 <= i < |keys| && keys[i] == v;
      assert s[i] in s && EntryCarried(keyKind, valueKind, s[i]);
    }
  }

  lemma {:induction false} InsertEntryCarried(keyKind: ValueKind, valueKind: ValueKind, s: seq<Entry>, key: Value, value: Value)
    requires AllEntriesCarried(keyKind, valueKind, s) && Carried(keyKind, key) && Carried(valueKind, value)
    ensures AllEntriesCarried(keyKind, valueKind, InsertEntry(s, key, value))
  {
    hide Compare, Carried;
    var e := Entry(key, value);
    assert EntryCarried(keyKind, valueKind, e);
    hide EntryCarried;
    if s == [] {
      ConsCarried(keyKind, valueKind, e, []);
    } else {
      assert s == [s[0]] + s[1..];
      ConsCarried(keyKind, valueKind, s[0], s[1..]);
      InsertEntryCarried(keyKind, valueKind, s[1..], key, value);
      HeadReplaced(keyKind, valueKind, s[0], e);
      ConsCarried(keyKind, valueKind, Entry(s[0].key, value), s[1..]);
      ConsCarried(keyKind, valueKind, e, s);
      ConsCarried(keyKind, valueKind, s[0], InsertEntry(s[1..], key, value));
    }
  }

  lemma HeadReplaced(keyKind: ValueKind, valueKind: ValueKind, old_: Entry, new_: Entry)
    requires EntryCarried(keyKind, valueKind, new_)
    ensures EntryCarried(keyKind, valueKind, old_) ==> EntryCarried(keyKind, valueKind, Entry(old_.key, new_.value))
  {
  }

  lemma ConsCarried(keyKind: ValueKind, valueKind: ValueKind, e: Entry, s: seq<Entry>)
    ensures AllEntriesCarried(keyKind, valueKind, [e] + s)
      <==> EntryCarried(keyKind, valueKind, e) && AllEntriesCarried(keyKind, valueKind, s)
  {
    hide EntryCarried;
    assert forall x :: x in [e] + s <==> x == e || x in s;
  }

  lemma {:induction false} InsertAllEntriesSorted(keyKind: ValueKind, valueKind: ValueKind, s: seq<Entry>, entries: seq<Entry>)
    requires SortedEntries(s) && AllEntriesCarried(keyKind, valueKind, s) && AllEntriesCarried(keyKind, valueKind, entries)
    ensures SortedEntries(InsertEntries(s, entries)) && AllEntriesCarried(keyKind, valueKind, InsertEntries(s, entries))
    decreases |entries|
  {
    hide Compare, Carried, SortedEntries, SortedValues, AllCarried, InsertEntry, InsertValue, KeysOfEntries;
    if entries != [] {
      var key, value := entries[0].key, entries[0].value;
      assert EntryCarried(keyKind, valueKind, entries[0]);
      KeysSorted(s);
      KeysCarried(keyKind, valueKind, s);
      InsertKeepsSorted(keyKind, KeysOfEntries(s), key);
      InsertEntryKeys(s, key, value);
      KeysSorted(InsertEntry(s, key, value));
      InsertEntryCarried(keyKind, valueKind, s, key, value);
      InsertAllEntriesSorted(keyKind, valueKind, InsertEntry(s, key, value), entries[1..]);
    }
  }

  lemma {:induction false} DecodedElements(kind: ValueKind, bytes: Bytes)
    requires DecodeElements(kind, bytes).Some?
    ensures AllCarried(kind, DecodeElements(kind, bytes).value)
    decreases |bytes|
  {
    if bytes != [] {
      hide EncodeElement, DecodeElement, OfKind;
      ElementCanonical(kind, bytes);
      DecodedElements(kind, bytes[DecodeElement(kind, bytes).value.used..]);
    }
  }

  lemma {:induction false} DecodedEntries(keyKind: ValueKind, valueKind: ValueKind, bytes: Bytes)
    requires DecodeEntries(keyKind, valueKind, bytes).Some?
    ensures AllEntriesCarried(keyKind, valueKind, DecodeEntries(keyKind, valueKind, bytes).value)
    decreases |bytes|
  {
    if bytes != [] {
      hide EncodeElement, DecodeElement, OfKind;
      var key := DecodeElement(keyKind, bytes).value;
      ElementCanonical(keyKind, bytes);
      ElementCanonical(valueKind, bytes[key.used..]);
      DecodedEntries(keyKind, valueKind, bytes[DecodeEntry(keyKind, valueKind, bytes).value.used..]);
    }
  }

  lemma {:induction false} CarriedEncodes(kind: ValueKind, values: seq<Value>)
    requires AllCarried(kind, values)
    ensures EncodeElements(kind, values).Some? && forall v :: v in values ==> !v.Text?
  {
    hide EncodeElement;
    if values != [] {
      assert Carried(kind, values[0]);
      CarriedEncodes(kind, values[1..]);
    }
  }

  lemma {:induction false} CarriedEntriesEncode(keyKind: ValueKind, valueKind: ValueKind, entries: seq<Entry>)
    requires AllEntriesCarried(keyKind, valueKind, entries)
    ensures EncodeEntries(keyKind, valueKind, entries).Some?
    ensures forall e :: e in entries ==> !e.key.Text? && !e.value.Text?
  {
    hide EncodeElement;
    if entries != [] {
      assert EntryCarried(keyKind, valueKind, entries[0]);
      CarriedEntriesEncode(keyKind, valueKind, entries[1..]);
    }
  }

  /** Whatever bytes arrive, what they decode to is a well-formed value that
      survives every later trip: sets and maps are in order without duplicates,
      however the sender arranged them. */
  lemma DecodedSettles(kind: ValueKind, bytes: Bytes)
    requires DecodeValue(kind, bytes).Some?
    ensures var value := DecodeValue(kind, bytes).value;
      && Ordered(value) && EncodeValue(kind, value).Some?
      && DecodeValue(kind, EncodeValue(kind, value).value) == Some(value)
  {
    hide DecodeElements, DecodeEntries, EncodeElements, EncodeEntries, InsertValues, InsertEntries, SortedValues,
         SortedEntries, AllCarried, AllEntriesCarried;
    var value := DecodeValue(kind, bytes).value;
    match kind {
      case KList(elem) =>
        DecodedElements(elem, bytes);
        CarriedEncodes(elem, value.items);
      case KSet(elem) =>
        DecodedElements(elem, bytes);
        NoneSorted(elem);
        InsertAllSorted(elem, [], DecodeElements(elem, bytes).value);
        CarriedEncodes(elem, value.members);
      case KMap(k, v) =>
        DecodedEntries(k, v, bytes);
        NoEntriesSorted(k, v);
        InsertAllEntriesSorted(k, v, [], DecodeEntries(k, v, bytes).value);
        CarriedEntriesEncode(k, v, value.entries);
      case _ =>
    }
    ValueRoundTrip(kind, value);
  }

  lemma NoneSorted(kind: ValueKind)
    ensures SortedValues([]) && AllCarried(kind, [])
  {
  }

  lemma NoEntriesSorted(keyKind: ValueKind, valueKind: ValueKind)
    ensures SortedEntries([]) && AllEntriesCarried(keyKind, valueKind, [])
  {
  }
}
