/** The in-memory storage engine (crates/engine-memory). */
module Engine {
  import opened Arithmetic
  import opened Base
  import opened DataModel
  import opened KeyOrder

  type Attributes = map<Name, Value>
  type Table = map<Bytes, Record>
  type Storage = map<SpaceName, Table>

  datatype WriteResult = Written | ConditionFailed | Missing

  // ---------------------------------------------------------------- arithmetic

  /** Bitwise operations on two's complement numbers, bit by bit from the right
      until only copies of the sign are left. */
  function Bitwise(op: NumericOp, x: int, y: int): int
    requires op.And? || op.Or? || op.Xor?
    decreases if x < 0 then -x else x, if y < 0 then -y else y
  {
    if -1 <= x <= 0 && -1 <= y <= 0 then -Bit(op, -x, -y)
    else 2 * Bitwise(op, x / 2, y / 2) + Bit(op, x % 2, y % 2)
  }

  function Bit(op: NumericOp, a: int, b: int): (r: int)
    requires op.And? || op.Or? || op.Xor?
    ensures 0 <= r <= 1
  {
    match op
    case And => if a == 1 && b == 1 then 1 else 0
    case Or => if a == 1 || b == 1 then 1 else 0
    case _ => if a != b then 1 else 0
  }

  lemma {:induction false} BitwiseInRange(op: NumericOp, x: int, y: int, width: nat)
    requires op.And? || op.Or? || op.Xor?
    requires 0 - Pow2(width) <= x < Pow2(width) && 0 - Pow2(width) <= y < Pow2(width)
    ensures 0 - Pow2(width) <= Bitwise(op, x, y) < Pow2(width)
    decreases width
  {
    if width > 0 {
      BitwiseInRange(op, x / 2, y / 2, width - 1);
    }
  }

  function BitwiseI64(op: NumericOp, x: i64, y: i64): i64
    requires op.And? || op.Or? || op.Xor?
  {
    Pow63();
    BitwiseInRange(op, x, y, 63);
    Bitwise(op, x, y)
  }

  /** Rust's integer division, which truncates toward zero. */
  function Quotient(x: int, y: int): int
    requires y != 0
  {
    if x >= 0 then x / y else -(-x / y)
  }

  function ApplyNumeric(current: i64, op: NumericOp, operand: i64): Result<i64> {
    match op
    case Add => Ok(SaturateI64(current + operand))
    case Sub => Ok(SaturateI64(current - operand))
    case Mul => Ok(SaturateI64(current * operand))
    case Div =>
      if operand == 0 || (current == -TWO_63 && operand == -1) then Err(Panicked)
      else Ok(SaturateI64(Quotient(current, operand)))
    case Mod =>
      if operand == 0 || (current == -TWO_63 && operand == -1) then Err(Panicked)
      else Ok(SaturateI64(current - operand * Quotient(current, operand)))
    case _ => Ok(BitwiseI64(op, current, operand))
  }

  // ----------------------------------------------------------------- mutations

  function AttributeOr(attributes: Attributes, name: Name, default: Value): Value {
    if name in attributes then attributes[name] else default
  }

  /** One mutation either takes effect or, on an error, leaves the record alone. */
  function ApplyMutation(attributes: Attributes, mutation: Mutation): Result<Attributes> {
    match mutation
    case SetAttribute(name, value) => Ok(attributes[name := value])
    case Numeric(name, op, operand) =>
      var current := AttributeOr(attributes, name, Int(0));
      if !current.Int? then Err(NonNumeric)
      else
        var updated :- ApplyNumeric(current.i, op, operand);
        Ok(attributes[name := Int(updated)])
    case MapSet(name, mapKey, value) =>
      var current := AttributeOr(attributes, name, Map([]));
      if !current.Map? then Err(NonNumeric)
      else Ok(attributes[name := Map(InsertEntry(current.entries, mapKey, value))])
    case MapNumeric(name, mapKey, op, operand) =>
      var current := AttributeOr(attributes, name, Map([]));
      if !current.Map? then Err(NonNumeric)
      else
        var found := LookupEntry(current.entries, mapKey);
        var value := if found.Some? then found.value else Int(0);
        if !value.Int? then Err(NonNumeric)
        else
          var updated :- ApplyNumeric(value.i, op, operand);
          Ok(attributes[name := Map(InsertEntry(current.entries, mapKey, Int(updated)))])
  }

  /** What a mutation list leaves behind, and the error that stopped it if any. */
  datatype Applied = Applied(attributes: Attributes, failure: Option<Error>)

  function ApplyMutations(attributes: Attributes, mutations: seq<Mutation>): Applied
    decreases |mutations|
  {
    if mutations == [] then Applied(attributes, None)
    else
      match ApplyMutation(attributes, mutations[0])
      case Err(e) => Applied(attributes, Some(e))
      case Ok(next) => ApplyMutations(next, mutations[1..])
  }

  /** The source's loop over a record it holds by reference. */
  method ApplyMutationsInPlace(record: Record, mutations: seq<Mutation>) returns (after: Record, failure: Option<Error>)
    ensures after == record.(attributes := ApplyMutations(record.attributes, mutations).attributes)
    ensures failure == ApplyMutations(record.attributes, mutations).failure
  {
    after := record;
    for i := 0 to |mutations|
      invariant after.key == record.key
      invariant ApplyMutations(after.attributes, mutations[i..]) == ApplyMutations(record.attributes, mutations)
    {
      assert mutations[i..][1..] == mutations[i + 1..];
      match ApplyMutation(after.attributes, mutations[i]) {
        case Err(e) => return after, Some(e);
        case Ok(attributes) => after := after.(attributes := attributes);
      }
    }
    failure := None;
  }

  lemma {:induction false} ApplyMutationsConcat(attributes: Attributes, a: seq<Mutation>, b: seq<Mutation>)
    requires ApplyMutations(attributes, a).failure.None?
    ensures ApplyMutations(attributes, a + b) == ApplyMutations(ApplyMutations(attributes, a).attributes, b)
    decreases |a|
  {
    if a == [] {
      assert a + b == b;
    } else {
      assert (a + b)[1..] == a[1..] + b;
      ApplyMutationsConcat(ApplyMutation(attributes, a[0]).value, a[1..], b);
    }
  }

  /** The mutations before `i` all took effect and number `i` is refused. */
  ghost predicate StoppedAt(attributes: Attributes, mutations: seq<Mutation>, i: nat) {
    i < |mutations|
    && var after := ApplyMutations(attributes, mutations[..i]);
       after.failure.None?
       && after.attributes == ApplyMutations(attributes, mutations).attributes
       && ApplyMutation(after.attributes, mutations[i]).Err?
  }

  /** A list that fails has applied the mutations before the one that failed,
      and nothing of that one. */
  lemma {:induction false} FailureKeepsPrefix(attributes: Attributes, mutations: seq<Mutation>)
    requires ApplyMutations(attributes, mutations).failure.Some?
    ensures exists i: nat :: StoppedAt(attributes, mutations, i)
    decreases |mutations|
  {
    match ApplyMutation(attributes, mutations[0])
    case Err(_) =>
      assert StoppedAt(attributes, mutations, 0);
    case Ok(next) =>
      FailureKeepsPrefix(next, mutations[1..]);
      var i: nat :| StoppedAt(next, mutations[1..], i);
      assert mutations[..i + 1][1..] == mutations[1..][..i];
      assert StoppedAt(attributes, mutations, i + 1);
  }

  // ---------------------------------------------------------------- predicates

  predicate MatchesPredicate(left: Value, predicate_: Predicate, right: Value) {
    var c := Compare(left, right);
    match predicate_
    case Equal => c == 0
    case LessThan => c < 0
    case LessThanOrEqual => c <= 0
    case GreaterThan => c > 0
    case GreaterThanOrEqual => c >= 0
  }

  predicate RecordMatches(record: Record, checks: seq<Check>) {
    forall c :: c in checks ==>
      c.attribute in record.attributes
      && MatchesPredicate(record.attributes[c.attribute], c.predicate_, c.value)
  }

  function Matching(table: Table, checks: seq<Check>): set<Bytes> {
    set k | k in table && RecordMatches(table[k], checks)
  }

  // ---------------------------------------------------- operations on one table

  function RecordOrNew(table: Table, key: Bytes): Record {
    if key in table then table[key] else NewRecord(key)
  }

  /** `put` inserts the record before it mutates it, so a failing list leaves a
      record with the mutations that came before. */
  function PutTable(table: Table, key: Bytes, mutations: seq<Mutation>): Table {
    var record := RecordOrNew(table, key);
    table[key := record.(attributes := ApplyMutations(record.attributes, mutations).attributes)]
  }

  function PutFailure(table: Table, key: Bytes, mutations: seq<Mutation>): Option<Error> {
    ApplyMutations(RecordOrNew(table, key).attributes, mutations).failure
  }

  /** A put that fails at mutation `i` leaves the table as it was exactly if the
      record was there and the mutations before `i` amount to nothing. */
  ghost predicate KeepsTableIffPrefixIdle(table: Table, key: Bytes, mutations: seq<Mutation>, i: nat)
    requires i <= |mutations|
  {
    var attributes := RecordOrNew(table, key).attributes;
    PutTable(table, key, mutations) == table <==>
      key in table && ApplyMutations(attributes, mutations[..i]).attributes == attributes
  }

  lemma FailedPutExact(table: Table, key: Bytes, mutations: seq<Mutation>)
    requires PutFailure(table, key, mutations).Some?
    ensures exists i: nat ::
      StoppedAt(RecordOrNew(table, key).attributes, mutations, i) && KeepsTableIffPrefixIdle(table, key, mutations, i)
  {
    hide ApplyMutations, ApplyMutation;
    var record := RecordOrNew(table, key);
    FailureKeepsPrefix(record.attributes, mutations);
    var i: nat :| StoppedAt(record.attributes, mutations, i);
    var after := ApplyMutations(record.attributes, mutations).attributes;
    assert PutTable(table, key, mutations)[key] == record.(attributes := after);
    if key in table && after == record.attributes {
      assert PutTable(table, key, mutations) == table;
    }
    assert KeepsTableIffPrefixIdle(table, key, mutations, i);
  }

  predicate ConditionHolds(table: Table, key: Bytes, checks: seq<Check>) {
    if key in table then RecordMatches(table[key], checks) else checks == []
  }

  /** The records that match, filed under their keys. */
  function Selection(table: Table, checks: seq<Check>): map<Bytes, Record> {
    map k | k in Matching(table, checks) :: table[k]
  }

  function RemoveMatching(table: Table, checks: seq<Check>): Table {
    table - Matching(table, checks)
  }

  /** Every record is filed under its own key. */
  predicate Keyed(table: Table) { Filed(table) }

  predicate KeyedStorage(storage: Storage) {
    forall s :: s in storage ==> Keyed(storage[s])
  }

  /** The engine, its spaces behind one lock. */
  class MemoryEngine {
    var spaces: Storage

    constructor ()
      ensures spaces == map[]
    {
      spaces := map[];
    }

    method Put(space: SpaceName, key: Bytes, mutations: seq<Mutation>) returns (r: Result<WriteResult>)
      modifies this
      ensures space !in old(spaces) ==> r == Err(SchemaGap) && spaces == old(spaces)
      ensures space in old(spaces) ==>
        && spaces == old(spaces)[space := PutTable(old(spaces)[space], key, mutations)]
        && r == match PutFailure(old(spaces)[space], key, mutations) { case None => Ok(Written) case Some(e) => Err(e) }
      ensures KeyedStorage(old(spaces)) ==> KeyedStorage(spaces)
    {
      if space !in spaces {
        return Err(SchemaGap);
      }
      var record := RecordOrNew(spaces[space], key);
      var after, failure := ApplyMutationsInPlace(record, mutations);
      spaces := spaces[space := spaces[space][key := after]];
      r := if failure.Some? then Err(failure.value) else Ok(Written);
    }

    method Get(space: SpaceName, key: Bytes) returns (r: Option<Record>)
      ensures r == if space in spaces && key in spaces[space] then Some(spaces[space][key]) else None
    {
      if space in spaces && key in spaces[space] {
        return Some(spaces[space][key]);
      }
      r := None;
    }

    method Delete(space: SpaceName, key: Bytes) returns (r: Result<WriteResult>)
      modifies this
      ensures space !in old(spaces) ==> r == Err(SchemaGap) && spaces == old(spaces)
      ensures space in old(spaces) ==>
        && spaces == old(spaces)[space := old(spaces)[space] - {key}]
        && r == Ok(if key in old(spaces)[space] then Written else Missing)
      ensures KeyedStorage(old(spaces)) ==> KeyedStorage(spaces)
    {
      if space !in spaces {
        return Err(SchemaGap);
      }
      r := Ok(if key in spaces[space] then Written else Missing);
      spaces := spaces[space := spaces[space] - {key}];
    }

    /** A failed condition changes nothing; a condition that holds makes this a put. */
    method ConditionalPut(space: SpaceName, key: Bytes, checks: seq<Check>, mutations: seq<Mutation>)
      returns (r: Result<WriteResult>)
      modifies this
      ensures space !in old(spaces) ==> r == Err(SchemaGap) && spaces == old(spaces)
      ensures space in old(spaces) && !ConditionHolds(old(spaces)[space], key, checks) ==>
        r == Ok(ConditionFailed) && spaces == old(spaces)
      ensures space in old(spaces) && ConditionHolds(old(spaces)[space], key, checks) ==>
        && spaces == old(spaces)[space := PutTable(old(spaces)[space], key, mutations)]
        && r == match PutFailure(old(spaces)[space], key, mutations) { case None => Ok(Written) case Some(e) => Err(e) }
    {
      if space !in spaces {
        return Err(SchemaGap);
      }
      if key in spaces[space] {
        if !RecordMatches(spaces[space][key], checks) {
          return Ok(ConditionFailed);
        }
      } else if checks != [] {
        return Ok(ConditionFailed);
      }
      r := Put(space, key, mutations);
    }

    /** The matching records in key order. */
    method Search(space: SpaceName, checks: seq<Check>) returns (r: Result<seq<Record>>)
      requires KeyedStorage(spaces)
      ensures space !in spaces ==> r == Err(SchemaGap)
      ensures space in spaces ==> r.Ok? && ListsInKeyOrder(r.value, Selection(spaces[space], checks))
    {
      if space !in spaces {
        return Err(SchemaGap);
      }
      assert Keyed(spaces[space]);
      var list := ListRecords(Selection(spaces[space], checks));
      r := Ok(list);
    }

    /** Two passes: collect the doomed keys, then remove them one by one. */
    method DeleteMatching(space: SpaceName, checks: seq<Check>) returns (r: Result<nat>)
      modifies this
      ensures space !in old(spaces) ==> r == Err(SchemaGap) && spaces == old(spaces)
      ensures space in old(spaces) ==>
        && spaces == old(spaces)[space := RemoveMatching(old(spaces)[space], checks)]
        && r == Ok(|Matching(old(spaces)[space], checks)|)
        && |spaces[space]| + |Matching(old(spaces)[space], checks)| == |old(spaces)[space]|
    {
      if space !in spaces {
        return Err(SchemaGap);
      }
      var records := spaces[space];
      var doomed := Matching(records, checks);
      RemovalCount(records, doomed);
      var kept := RemoveAll(records, doomed);
      spaces := spaces[space := kept];
      r := Ok(|doomed|);
    }

    method CreateSpace(space: SpaceName)
      modifies this
      ensures spaces == if space in old(spaces) then old(spaces) else old(spaces)[space := map[]]
    {
      if space !in spaces {
        spaces := spaces[space := map[]];
      }
    }

    method DropSpace(space: SpaceName)
      modifies this
      ensures spaces == old(spaces) - {space}
    {
      spaces := spaces - {space};
    }
  }

  method RemoveAll(records: Table, doomed: set<Bytes>) returns (kept: Table)
    ensures kept == records - doomed
  {
    kept := records;
    var remaining := doomed;
    while remaining != {}
      invariant remaining <= doomed && kept == records - (doomed - remaining)
    {
      var k :| k in remaining;
      kept, remaining := kept - {k}, remaining - {k};
    }
    assert doomed - {} == doomed;
  }

  lemma RemovalCount(table: Table, doomed: set<Bytes>)
    requires doomed <= table.Keys
    ensures |table - doomed| + |doomed| == |table|
  {
    assert (table - doomed).Keys == table.Keys - doomed;
    assert |table.Keys - doomed| == |table.Keys| - |doomed|;
  }
}
