/** When the source takes two records for equal: floats compare by their order,
    in which both zeros are one number and so are all NaNs (crates/data-model). */
module RecordEquality {
  import opened Base
  import opened DataModel
  import opened Engine
  import opened KeyOrder

  predicate SameAttributes(a: Attributes, b: Attributes) {
    a.Keys == b.Keys && forall name :: name in a ==> Compare(a[name], b[name]) == 0
  }

  predicate SameRecord(a: Record, b: Record) { a.key == b.key && SameAttributes(a.attributes, b.attributes) }

  predicate SameFound(a: Option<Record>, b: Option<Record>) {
    match (a, b)
    case (Some(x), Some(y)) => SameRecord(x, y)
    case _ => a.None? && b.None?
  }

  predicate SameListing(a: map<Bytes, Record>, b: map<Bytes, Record>) {
    a.Keys == b.Keys && forall k :: k in a ==> SameRecord(a[k], b[k])
  }

  // ------------------------------------------------------- values that compare equal

  lemma CompareReflexive(a: Value)
    ensures Compare(a, a) == 0
  {
    CompareAntisymmetric(a, a);
  }

  /** Values that compare equal compare alike with every third value. */
  lemma {:induction false} CompareCongruent(a: Value, b: Value, c: Value)
    requires Compare(a, b) == 0
    ensures Compare(a, c) == Compare(b, c)
    decreases a
  {
    match (a, b)
    case (Blob(x), Blob(y)) => CompareBytesZero(x, y);
    case (Text(x), Text(y)) => CompareBytesZero(x, y);
    case (List(x), List(y)) => if c.List? { ValuesCongruent(x, y, c.items); }
    case (Set(x), Set(y)) => if c.Set? { ValuesCongruent(x, y, c.members); }
    case (Map(x), Map(y)) => if c.Map? { EntriesCongruent(x, y, c.entries); }
    case _ =>
  }

  lemma {:induction false} ValuesCongruent(a: seq<Value>, b: seq<Value>, c: seq<Value>)
    requires CompareValues(a, b) == 0
    ensures CompareValues(a, c) == CompareValues(b, c)
    decreases a
  {
    if a != [] && c != [] {
      CompareCongruent(a[0], b[0], c[0]);
      ValuesCongruent(a[1..], b[1..], c[1..]);
    }
  }

  lemma {:induction false} EntriesCongruent(a: seq<Entry>, b: seq<Entry>, c: seq<Entry>)
    requires CompareEntries(a, b) == 0
    ensures CompareEntries(a, c) == CompareEntries(b, c)
    decreases a
  {
    if a != [] && c != [] {
      EntryCongruent(a[0], b[0], c[0]);
      EntriesCongruent(a[1..], b[1..], c[1..]);
    }
  }

  lemma {:induction false} EntryCongruent(a: Entry, b: Entry, c: Entry)
    requires CompareEntry(a, b) == 0
    ensures CompareEntry(a, c) == CompareEntry(b, c)
    decreases a
  {
    CompareCongruent(a.key, b.key, c.key);
    CompareCongruent(a.value, b.value, c.value);
  }

  // ------------------------------------------------------------- an equivalence

  lemma SameIsReflexive(a: Record)
    ensures SameRecord(a, a)
  {
    forall name | name in a.attributes ensures Compare(a.attributes[name], a.attributes[name]) == 0 {
      CompareReflexive(a.attributes[name]);
    }
  }

  /** Records that equal a third equal each other. */
  lemma SameIsEuclidean(a: Record, b: Record, c: Record)
    requires SameRecord(c, a) && SameRecord(c, b)
    ensures SameRecord(a, b)
  {
    forall name | name in a.attributes ensures Compare(a.attributes[name], b.attributes[name]) == 0 {
      CompareCongruent(c.attributes[name], a.attributes[name], b.attributes[name]);
    }
  }

  lemma FoundIsReflexive(a: Option<Record>)
    ensures SameFound(a, a)
  {
    if a.Some? { SameIsReflexive(a.value); }
  }

  lemma FoundIsEuclidean(a: Option<Record>, b: Option<Record>, c: Option<Record>)
    requires SameFound(c, a) && SameFound(c, b)
    ensures SameFound(a, b)
  {
    if c.Some? { SameIsEuclidean(a.value, b.value, c.value); }
  }

  lemma ListingIsReflexive(a: map<Bytes, Record>)
    ensures SameListing(a, a)
  {
    forall k | k in a ensures SameRecord(a[k], a[k]) { SameIsReflexive(a[k]); }
  }

  // ------------------------------------------------------- equal records stay equal

  lemma {:induction false} InsertCongruent(s: seq<Entry>, t: seq<Entry>, key: Value, value: Value)
    requires CompareEntries(s, t) == 0
    ensures CompareEntries(InsertEntry(s, key, value), InsertEntry(t, key, value)) == 0
    decreases |s|
  {
    CompareReflexive(key);
    CompareReflexive(value);
    if s == [] {
      assert CompareEntries([], []) == 0;
    } else {
      CompareCongruent(s[0].key, t[0].key, key);
      if Compare(s[0].key, key) == 0 {
        HeadsEqual(Entry(s[0].key, value), Entry(t[0].key, value), s[1..], t[1..]);
      } else if Compare(s[0].key, key) > 0 {
        HeadsEqual(Entry(key, value), Entry(key, value), s, t);
      } else {
        InsertCongruent(s[1..], t[1..], key, value);
        HeadsEqual(s[0], t[0], InsertEntry(s[1..], key, value), InsertEntry(t[1..], key, value));
      }
    }
  }

  lemma HeadsEqual(x: Entry, y: Entry, s: seq<Entry>, t: seq<Entry>)
    requires CompareEntry(x, y) == 0 && CompareEntries(s, t) == 0
    ensures CompareEntries([x] + s, [y] + t) == 0
  {
    assert ([x] + s)[1..] == s && ([y] + t)[1..] == t;
  }

  predicate SameValues(a: Option<Value>, b: Option<Value>) {
    match (a, b)
    case (Some(x), Some(y)) => Compare(x, y) == 0
    case _ => a.None? && b.None?
  }

  lemma {:induction false} LookupCongruent(s: seq<Entry>, t: seq<Entry>, key: Value)
    requires CompareEntries(s, t) == 0
    ensures SameValues(LookupEntry(s, key), LookupEntry(t, key))
    decreases |s|
  {
    if s != [] {
      CompareCongruent(s[0].key, t[0].key, key);
      LookupCongruent(s[1..], t[1..], key);
    }
  }

  predicate SameOutcome(a: Result<Attributes>, b: Result<Attributes>) {
    match (a, b)
    case (Ok(x), Ok(y)) => SameAttributes(x, y)
    case (Err(e), Err(f)) => e == f
    case _ => false
  }

  /** What a mutation looks at is the same in equal records. */
  lemma CurrentCongruent(a: Attributes, b: Attributes, name: Name, default: Value)
    requires SameAttributes(a, b)
    ensures Compare(AttributeOr(a, name, default), AttributeOr(b, name, default)) == 0
  {
    CompareReflexive(default);
  }

  lemma SetCongruent(a: Attributes, b: Attributes, name: Name, x: Value, y: Value)
    requires SameAttributes(a, b) && Compare(x, y) == 0
    ensures SameAttributes(a[name := x], b[name := y])
  {
  }

  lemma MutationCongruent(a: Attributes, b: Attributes, m: Mutation)
    requires SameAttributes(a, b)
    ensures SameOutcome(ApplyMutation(a, m), ApplyMutation(b, m))
  {
    hide SameAttributes, ApplyNumeric, InsertEntry, LookupEntry, AttributeOr;
    match m
    case SetAttribute(name, value) =>
      CompareReflexive(value);
      SetCongruent(a, b, name, value, value);
    case Numeric(name, op, operand) =>
      CurrentCongruent(a, b, name, Int(0));
      var x := AttributeOr(a, name, Int(0));
      if x.Int? && ApplyNumeric(x.i, op, operand).Ok? {
        IntSet(a, b, name, ApplyNumeric(x.i, op, operand).value);
      }
    case MapSet(name, mapKey, value) =>
      CurrentCongruent(a, b, name, Map([]));
      var x, y := AttributeOr(a, name, Map([])), AttributeOr(b, name, Map([]));
      if x.Map? { EntrySetCongruent(a, b, name, x.entries, y.entries, mapKey, value); }
    case MapNumeric(name, mapKey, op, operand) =>
      MapNumericCongruent(a, b, name, mapKey, op, operand);
  }

  lemma IntSet(a: Attributes, b: Attributes, name: Name, i: i64)
    requires SameAttributes(a, b)
    ensures SameAttributes(a[name := Int(i)], b[name := Int(i)])
  {
  }

  lemma EqualShapes(x: Value, y: Value)
    requires Compare(x, y) == 0
    ensures (x.Int? <==> y.Int?) && (x.Int? ==> x == y)
    ensures (x.Map? <==> y.Map?) && (x.Map? ==> CompareEntries(x.entries, y.entries) == 0)
  {
  }

  lemma MapsEqual(s: seq<Entry>, t: seq<Entry>)
    requires CompareEntries(s, t) == 0
    ensures Compare(Map(s), Map(t)) == 0
  {
  }

  lemma MapNumericCongruent(a: Attributes, b: Attributes, name: Name, mapKey: Value, op: NumericOp, operand: i64)
    requires SameAttributes(a, b)
    ensures var m := MapNumeric(name, mapKey, op, operand); SameOutcome(ApplyMutation(a, m), ApplyMutation(b, m))
  {
    hide SameAttributes, ApplyNumeric, InsertEntry, AttributeOr, Compare, CompareEntries;
    CurrentCongruent(a, b, name, Map([]));
    var x, y := AttributeOr(a, name, Map([])), AttributeOr(b, name, Map([]));
    EqualShapes(x, y);
    if x.Map? {
      EntryValueCongruent(x.entries, y.entries, mapKey);
      var value := EntryOrZero(x.entries, mapKey);
      if value.Int? && ApplyNumeric(value.i, op, operand).Ok? {
        EntrySetCongruent(a, b, name, x.entries, y.entries, mapKey, Int(ApplyNumeric(value.i, op, operand).value));
      }
    }
  }

  function EntryOrZero(s: seq<Entry>, key: Value): Value {
    var found := LookupEntry(s, key);
    if found.Some? then found.value else Int(0)
  }

  lemma EntryValueCongruent(s: seq<Entry>, t: seq<Entry>, key: Value)
    requires CompareEntries(s, t) == 0
    ensures EntryOrZero(s, key).Int? <==> EntryOrZero(t, key).Int?
    ensures EntryOrZero(s, key).Int? ==> EntryOrZero(s, key) == EntryOrZero(t, key)
  {
    hide Compare, CompareEntries, LookupEntry;
    LookupCongruent(s, t, key);
    if LookupEntry(s, key).Some? { EqualShapes(LookupEntry(s, key).value, LookupEntry(t, key).value); }
  }

  lemma EntrySetCongruent(a: Attributes, b: Attributes, name: Name, s: seq<Entry>, t: seq<Entry>, key: Value, value: Value)
    requires SameAttributes(a, b) && CompareEntries(s, t) == 0
    ensures SameAttributes(a[name := Map(InsertEntry(s, key, value))], b[name := Map(InsertEntry(t, key, value))])
  {
    hide SameAttributes, Compare, CompareEntries, InsertEntry;
    InsertCongruent(s, t, key, value);
    MapsEqual(InsertEntry(s, key, value), InsertEntry(t, key, value));
    SetCongruent(a, b, name, Map(InsertEntry(s, key, value)), Map(InsertEntry(t, key, value)));
  }

  /** Equal records stay equal under every mutation list, and fail alike. */
  lemma {:induction false} MutationsCongruent(a: Attributes, b: Attributes, mutations: seq<Mutation>)
    requires SameAttributes(a, b)
    ensures SameAttributes(ApplyMutations(a, mutations).attributes, ApplyMutations(b, mutations).attributes)
    ensures ApplyMutations(a, mutations).failure == ApplyMutations(b, mutations).failure
    decreases |mutations|
  {
    hide ApplyMutation, SameAttributes;
    if mutations != [] {
      MutationCongruent(a, b, mutations[0]);
      if ApplyMutation(a, mutations[0]).Ok? {
        MutationsCongruent(ApplyMutation(a, mutations[0]).value, ApplyMutation(b, mutations[0]).value, mutations[1..]);
      }
    }
  }
}
