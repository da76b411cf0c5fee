/** Values, records, schemas and mutations (crates/data-model). */
module DataModel {
  import opened Base

  type NodeId = u64
  type SpaceName = string
  type Name = string

  datatype TimeUnit = Second | Minute | Hour | Day | Week | Month

  datatype ValueKind =
    | KBool
    | KInt
    | KFloat
    | KBytes
    | KString
    | KDocument
    | KTimestamp(unit: TimeUnit)
    | KList(elem: ValueKind)
    | KSet(elem: ValueKind)
    | KMap(key: ValueKind, value: ValueKind)

  datatype AttributeDefinition = AttributeDefinition(name: Name, kind: ValueKind)

  datatype Subspace = Subspace(dimensions: seq<Name>)

  datatype SchemaFormat = HyperDexDsl | Protobuf | Json

  datatype SpaceOptions = SpaceOptions(faultTolerance: u32, partitions: u32, schemaFormat: SchemaFormat)

  datatype Space = Space(
    name: SpaceName,
    keyAttribute: Name,
    attributes: seq<AttributeDefinition>,
    subspaces: seq<Subspace>,
    options: SpaceOptions)

  /** A set or map value is kept as the source's ordered tree iterates it:
      strictly increasing in `Compare`. */
  datatype Value =
    | Null
    | Bool(b: bool)
    | Int(i: i64)
    | Float(bits: u64)        // the eight bytes of an IEEE 754 double
    | Blob(bytes: Bytes)      // Value::Bytes
    | Text(utf8: Bytes)       // Value::String, as its UTF-8 bytes
    | List(items: seq<Value>)
    | Set(members: seq<Value>)
    | Map(entries: seq<Entry>)

  datatype Entry = Entry(key: Value, value: Value)

  datatype Record = Record(key: Bytes, attributes: map<Name, Value>)

  datatype Predicate = Equal | LessThan | LessThanOrEqual | GreaterThan | GreaterThanOrEqual

  datatype Check = Check(attribute: Name, predicate_: Predicate, value: Value)

  datatype NumericOp = Add | Sub | Mul | Div | Mod | And | Or | Xor

  datatype Mutation =
    | SetAttribute(attribute: Name, value: Value)
    | Numeric(attribute: Name, op: NumericOp, operand: i64)
    | MapSet(attribute: Name, mapKey: Value, value: Value)
    | MapNumeric(attribute: Name, mapKey: Value, op: NumericOp, operand: i64)

  function NewRecord(key: Bytes): Record { Record(key, map[]) }

  // ---------------------------------------------------------------- ordering

  function Sign(x: int): int { if x < 0 then -1 else if x > 0 then 1 else 0 }

  function Rank(v: Value): nat {
    match v
    case Null => 0
    case Bool(_) => 1
    case Int(_) => 2
    case Float(_) => 3
    case Blob(_) => 4
    case Text(_) => 5
    case List(_) => 6
    case Set(_) => 7
    case Map(_) => 8
  }

  /** The position of a double in the order the source gives floats: both
      zeros are equal, and every NaN is equal to every other and above the rest. */
  function FloatPosition(bits: u64): int {
    var magnitude := bits % TWO_63;
    if magnitude > 0x7FF0_0000_0000_0000 then TWO_63
    else if bits >= TWO_63 then -magnitude
    else magnitude
  }

  function CompareBytes(a: Bytes, b: Bytes): int {
    if a == [] && b == [] then 0
    else if a == [] then -1
    else if b == [] then 1
    else if a[0] < b[0] then -1
    else if a[0] > b[0] then 1
    else CompareBytes(a[1..], b[1..])
  }

  /** The total order the source derives for values: first the variant, then
      the contents, containers element by element. */
  function Compare(a: Value, b: Value): int
    decreases a
  {
    match (a, b)
    case (Bool(x), Bool(y)) => if x == y then 0 else if y then -1 else 1
    case (Int(x), Int(y)) => Sign(x - y)
    case (Float(x), Float(y)) => Sign(FloatPosition(x) - FloatPosition(y))
    case (Blob(x), Blob(y)) => CompareBytes(x, y)
    case (Text(x), Text(y)) => CompareBytes(x, y)
    case (List(x), List(y)) => CompareValues(x, y)
    case (Set(x), Set(y)) => CompareValues(x, y)
    case (Map(x), Map(y)) => CompareEntries(x, y)
    case _ => Sign(Rank(a) - Rank(b))
  }

  function CompareValues(a: seq<Value>, b: seq<Value>): int
    decreases a
  {
    if a == [] && b == [] then 0
    else if a == [] then -1
    else if b == [] then 1
    else
      var c := Compare(a[0], b[0]);
      if c != 0 then c else CompareValues(a[1..], b[1..])
  }

  function CompareEntries(a: seq<Entry>, b: seq<Entry>): int
    decreases a
  {
    if a == [] && b == [] then 0
    else if a == [] then -1
    else if b == [] then 1
    else
      var c := CompareEntry(a[0], b[0]);
      if c != 0 then c else CompareEntries(a[1..], b[1..])
  }

  function CompareEntry(a: Entry, b: Entry): int
    decreases a
  {
    var c := Compare(a.key, b.key);
    if c != 0 then c else Compare(a.value, b.value)
  }

  lemma {:induction false} CompareBytesAntisymmetric(a: Bytes, b: Bytes)
    ensures CompareBytes(a, b) == -CompareBytes(b, a)
  {
    if a != [] && b != [] && a[0] == b[0] {
      CompareBytesAntisymmetric(a[1..], b[1..]);
    }
  }

  /** Swapping the operands of a comparison swaps its outcome. */
  lemma {:induction false} CompareAntisymmetric(a: Value, b: Value)
    ensures Compare(a, b) == -Compare(b, a)
    decreases a
  {
    match (a, b)
    case (Blob(x), Blob(y)) => CompareBytesAntisymmetric(x, y);
    case (Text(x), Text(y)) => CompareBytesAntisymmetric(x, y);
    case (List(x), List(y)) => CompareValuesAntisymmetric(x, y);
    case (Set(x), Set(y)) => CompareValuesAntisymmetric(x, y);
    case (Map(x), Map(y)) => CompareEntriesAntisymmetric(x, y);
    case _ =>
  }

  lemma {:induction false} CompareValuesAntisymmetric(a: seq<Value>, b: seq<Value>)
    ensures CompareValues(a, b) == -CompareValues(b, a)
    decreases a
  {
    if a != [] && b != [] {
      CompareAntisymmetric(a[0], b[0]);
      CompareValuesAntisymmetric(a[1..], b[1..]);
    }
  }

  lemma {:induction false} CompareEntriesAntisymmetric(a: seq<Entry>, b: seq<Entry>)
    ensures CompareEntries(a, b) == -CompareEntries(b, a)
    decreases a
  {
    if a != [] && b != [] {
      CompareEntryAntisymmetric(a[0], b[0]);
      CompareEntriesAntisymmetric(a[1..], b[1..]);
    }
  }

  lemma {:induction false} CompareEntryAntisymmetric(a: Entry, b: Entry)
    ensures CompareEntry(a, b) == -CompareEntry(b, a)
    decreases a
  {
    CompareAntisymmetric(a.key, b.key);
    CompareAntisymmetric(a.value, b.value);
  }

  // ------------------------------------------------------- ordered containers

  predicate SortedValues(s: seq<Value>) {
    forall i, j :: 0 <= i < j < |s| ==> Compare(s[i], s[j]) < 0
  }

  predicate SortedEntries(s: seq<Entry>) {
    forall i, j :: 0 <= i < j < |s| ==> Compare(s[i].key, s[j].key) < 0
  }

  /** Inserting into an ordered set: an element that is already there stays. */
  function InsertValue(s: seq<Value>, v: Value): seq<Value> {
    if s == [] then [v]
    else
      var c := Compare(s[0], v);
      if c == 0 then s
      else if c > 0 then [v] + s
      else [s[0]] + InsertValue(s[1..], v)
  }

  /** Inserting into an ordered map keeps the old key and replaces its value. */
  function InsertEntry(s: seq<Entry>, key: Value, value: Value): seq<Entry> {
    if s == [] then [Entry(key, value)]
    else
      var c := Compare(s[0].key, key);
      if c == 0 then [Entry(s[0].key, value)] + s[1..]
      else if c > 0 then [Entry(key, value)] + s
      else [s[0]] + InsertEntry(s[1..], key, value)
  }

  function LookupEntry(s: seq<Entry>, key: Value): Option<Value> {
    if s == [] then None
    else if Compare(s[0].key, key) == 0 then Some(s[0].value)
    else LookupEntry(s[1..], key)
  }

  lemma {:induction false} InsertValueAtEnd(s: seq<Value>, v: Value)
    requires forall i :: 0 <= i < |s| ==> Compare(s[i], v) < 0
    ensures InsertValue(s, v) == s + [v]
  {
    if s != [] {
      InsertValueAtEnd(s[1..], v);
      assert s == [s[0]] + s[1..];
    }
  }

  lemma {:induction false} InsertEntryAtEnd(s: seq<Entry>, key: Value, value: Value)
    requires forall i :: 0 <= i < |s| ==> Compare(s[i].key, key) < 0
    ensures InsertEntry(s, key, value) == s + [Entry(key, value)]
  {
    if s != [] {
      InsertEntryAtEnd(s[1..], key, value);
      assert s == [s[0]] + s[1..];
    }
  }
}
