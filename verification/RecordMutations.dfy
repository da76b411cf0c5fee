/** What one mutation does to a record, attribute by attribute and map entry by
    map entry (crates/engine-memory). */
module RecordMutations {
  import opened Base
  import opened DataModel
  import opened Engine
  import opened KeyOrder
  import opened RecordEquality

  // ------------------------------------------------------------- a total order

  /** With antisymmetry and congruence this makes the comparison of values, however
      deeply nested, a total order up to equality. */
  lemma {:induction false} CompareTransitive(a: Value, b: Value, c: Value)
    requires Compare(a, b) < 0 && Compare(b, c) < 0
    ensures Compare(a, c) < 0
    decreases a
  {
    match (a, b)
    case (Blob(x), Blob(y)) => if c.Blob? { CompareBytesTransitive(x, y, c.bytes); }
    case (Text(x), Text(y)) => if c.Text? { CompareBytesTransitive(x, y, c.utf8); }
    case (List(x), List(y)) => if c.List? { ValuesTransitive(x, y, c.items); }
    case (Set(x), Set(y)) => if c.Set? { ValuesTransitive(x, y, c.members); }
    case (Map(x), Map(y)) => if c.Map? { EntriesTransitive(x, y, c.entries); }
    case _ =>
  }

  /** Below and equal, in either order, is below. */
  lemma BelowThroughEqual(a: Value, b: Value, c: Value)
    ensures Compare(a, b) < 0 && Compare(b, c) == 0 ==> Compare(a, c) < 0
    ensures Compare(a, b) == 0 && Compare(b, c) < 0 ==> Compare(a, c) < 0
    ensures Compare(a, b) == 0 && Compare(b, c) == 0 ==> Compare(a, c) == 0
  {
    if Compare(b, c) == 0 {
      CompareCongruent(b, c, a);
      CompareAntisymmetric(a, b);
      CompareAntisymmetric(a, c);
    }
    if Compare(a, b) == 0 { CompareCongruent(a, b, c); }
  }

  lemma {:induction false} ValuesTransitive(a: seq<Value>, b: seq<Value>, c: seq<Value>)
    requires CompareValues(a, b) < 0 && CompareValues(b, c) < 0
    ensures CompareValues(a, c) < 0
    decreases a
  {
    if a != [] {
      BelowThroughEqual(a[0], b[0], c[0]);
      if Compare(a[0], b[0]) < 0 && Compare(b[0], c[0]) < 0 {
        CompareTransitive(a[0], b[0], c[0]);
      } else if Compare(a[0], b[0]) == 0 && Compare(b[0], c[0]) == 0 {
        ValuesTransitive(a[1..], b[1..], c[1..]);
      }
    }
  }

  lemma {:induction false} EntriesTransitive(a: seq<Entry>, b: seq<Entry>, c: seq<Entry>)
    requires CompareEntries(a, b) < 0 && CompareEntries(b, c) < 0
    ensures CompareEntries(a, c) < 0
    decreases a
  {
    if a != [] {
      EntryThrough(a[0], b[0], c[0]);
      hide CompareEntry;
      if CompareEntry(a[0], b[0]) == 0 && CompareEntry(b[0], c[0]) == 0 {
        EntriesTransitive(a[1..], b[1..], c[1..]);
      }
    }
  }

  lemma {:induction false} EntryThrough(a: Entry, b: Entry, c: Entry)
    ensures var x, y, z := CompareEntry(a, b), CompareEntry(b, c), CompareEntry(a, c);
      && (x <= 0 && y <= 0 && (x < 0 || y < 0) ==> z < 0)
      && (x == 0 && y == 0 ==> z == 0)
    decreases a
  {
    BelowThroughEqual(a.key, b.key, c.key);
    BelowThroughEqual(a.value, b.value, c.value);
    if Compare(a.key, b.key) < 0 && Compare(b.key, c.key) < 0 { CompareTransitive(a.key, b.key, c.key); }
    if Compare(a.value, b.value) < 0 && Compare(b.value, c.value) < 0 { CompareTransitive(a.value, b.value, c.value); }
  }

  // ------------------------------------------------------------------ map entries

  /** Looking up after an insertion: the new value under the key, and under every
      other key what was there. */
  lemma {:induction false} LookupAfterInsert(s: seq<Entry>, key: Value, value: Value, other: Value)
    ensures LookupEntry(InsertEntry(s, key, value), other)
      == if Compare(key, other) == 0 then Some(value) else LookupEntry(s, other)
  {
    hide Compare;
    if s != [] {
      var c := Compare(s[0].key, key);
      if c == 0 { CompareCongruent(s[0].key, key, other); }
      LookupAfterInsert(s[1..], key, value, other);
      if c < 0 && Compare(s[0].key, other) == 0 && Compare(key, other) == 0 { SameThird(s[0].key, key, other); }
      assert ([s[0]] + InsertEntry(s[1..], key, value))[1..] == InsertEntry(s[1..], key, value);
      assert ([Entry(key, value)] + s)[1..] == s;
      assert ([Entry(s[0].key, value)] + s[1..])[1..] == s[1..];
    } else {
      assert [Entry(key, value)][1..] == [];
    }
  }

  lemma SameThird(a: Value, b: Value, c: Value)
    requires Compare(a, c) == 0 && Compare(b, c) == 0
    ensures Compare(a, b) == 0
  {
    CompareAntisymmetric(b, c);
    BelowThroughEqual(a, c, b);
  }

  // ---------------------------------------------------------------- one mutation

  /** The attribute's number, a missing one counting as zero. */
  function NumberIn(attributes: Attributes, name: Name): Option<i64> {
    if name !in attributes then Some(0) else if attributes[name].Int? then Some(attributes[name].i) else None
  }

  /** The attribute's map, a missing one counting as empty. */
  function MapIn(attributes: Attributes, name: Name): Option<seq<Entry>> {
    if name !in attributes then Some([]) else if attributes[name].Map? then Some(attributes[name].entries) else None
  }

  /** The number under a map key, a missing one counting as zero. */
  function NumberUnder(entries: seq<Entry>, key: Value): Option<i64> {
    match LookupEntry(entries, key)
    case None => Some(0)
    case Some(v) => if v.Int? then Some(v.i) else None
  }

  /** The two maps differ under the key at most, where the second has the value. */
  ghost predicate OneEntryPut(before: seq<Entry>, after: seq<Entry>, key: Value, value: Value) {
    forall other ::
      LookupEntry(after, other) == if Compare(key, other) == 0 then Some(value) else LookupEntry(before, other)
  }

  ghost predicate OthersKept(before: Attributes, after: Attributes, name: Name) {
    name in after && after.Keys == before.Keys + {name} && forall n :: n in before && n != name ==> after[n] == before[n]
  }

  /** A mutation touches its own attribute and nothing else, and this is what it
      puts there. */
  ghost predicate HasEffect(before: Attributes, after: Attributes, m: Mutation) {
    && OthersKept(before, after, m.attribute)
    && match m
       case SetAttribute(name, value) => after[name] == value
       case Numeric(name, op, operand) =>
         && NumberIn(before, name).Some? && after[name].Int?
         && ApplyNumeric(NumberIn(before, name).value, op, operand) == Ok(after[name].i)
       case MapSet(name, key, value) =>
         MapIn(before, name).Some? && after[name].Map? && OneEntryPut(MapIn(before, name).value, after[name].entries, key, value)
       case MapNumeric(name, key, op, operand) =>
         && MapIn(before, name).Some? && after[name].Map? && NumberUnder(MapIn(before, name).value, key).Some?
         && var updated := ApplyNumeric(NumberUnder(MapIn(before, name).value, key).value, op, operand);
            updated.Ok? && OneEntryPut(MapIn(before, name).value, after[name].entries, key, Int(updated.value))
  }

  /** When a mutation is refused: arithmetic on what is no number, map operations
      on what is no map, and arithmetic that has no result. */
  predicate IsRefused(before: Attributes, m: Mutation) {
    match m
    case SetAttribute(_, _) => false
    case Numeric(name, op, operand) =>
      NumberIn(before, name).None? || ApplyNumeric(NumberIn(before, name).value, op, operand).Err?
    case MapSet(name, _, _) => MapIn(before, name).None?
    case MapNumeric(name, key, op, operand) =>
      || MapIn(before, name).None?
      || NumberUnder(MapIn(before, name).value, key).None?
      || ApplyNumeric(NumberUnder(MapIn(before, name).value, key).value, op, operand).Err?
  }

  lemma MutationEffect(before: Attributes, m: Mutation)
    ensures ApplyMutation(before, m).Err? <==> IsRefused(before, m)
    ensures ApplyMutation(before, m).Ok? ==> HasEffect(before, ApplyMutation(before, m).value, m)
  {
    hide ApplyNumeric, LookupEntry, InsertEntry, Compare;
    var current := MapIn(before, m.attribute);
    if current.Some? && (m.MapSet? || m.MapNumeric?) {
      var value := if m.MapSet? then m.value else
        var number := NumberUnder(current.value, m.mapKey);
        if number.Some? && ApplyNumeric(number.value, m.op, m.operand).Ok?
        then Int(ApplyNumeric(number.value, m.op, m.operand).value) else Null;
      forall other
        ensures LookupEntry(InsertEntry(current.value, m.mapKey, value), other)
          == if Compare(m.mapKey, other) == 0 then Some(value) else LookupEntry(current.value, other)
      {
        LookupAfterInsert(current.value, m.mapKey, value, other);
      }
      assert OneEntryPut(current.value, InsertEntry(current.value, m.mapKey, value), m.mapKey, value);
      hide OneEntryPut;
    }
  }
}
