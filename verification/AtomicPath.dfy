/** The two ways an atomic request becomes a stored record: translated to engine
    mutations, or applied to a copy that is then stored (crates/server). */
module AtomicPath {
  import opened Arithmetic
  import opened Base
  import opened ContainerValues
  import opened DataModel
  import opened Engine
  import opened Protocol
  import opened Wire

  const FUNC_SET: byte := 1
  const FUNC_NUM_ADD: byte := 4
  const FUNC_NUM_SUB: byte := 5
  const FUNC_NUM_MUL: byte := 6
  const FUNC_NUM_DIV: byte := 7
  const FUNC_NUM_MOD: byte := 8
  const FUNC_NUM_AND: byte := 9
  const FUNC_NUM_OR: byte := 10
  const FUNC_NUM_XOR: byte := 11
  const FUNC_NUM_MAX: byte := 12
  const FUNC_NUM_MIN: byte := 13

  const HYPERDATATYPE_INT64: u16 := 9218
  const HYPERDATATYPE_FLOAT: u16 := 9219

  /** The double with these eight bytes, rounded to a 64-bit integer. */
  type Rounding = u64 -> i64

  // ---------------------------------------------------------- shared by both paths

  /** Attribute 0 is the key. */
  function AttributeAt(space: Space, attr: u16): Option<AttributeDefinition> {
    if attr == 0 then Some(AttributeDefinition(space.keyAttribute, KBytes))
    else if attr - 1 >= |space.attributes| then None
    else Some(space.attributes[attr - 1])
  }

  function PrimitiveKind(code: nat): Option<ValueKind> {
    match code
    case 0 => Some(KBytes)
    case 1 => Some(KString)
    case 2 => Some(KInt)
    case 3 => Some(KFloat)
    case _ => None
  }

  function KindOfDatatype(datatype_: u16): Option<ValueKind> {
    if datatype_ == 9217 then Some(KString)
    else if datatype_ == 9218 then Some(KInt)
    else if datatype_ == 9219 then Some(KFloat)
    else if datatype_ / 64 == 145 then
      var elem :- PrimitiveKind(datatype_ % 64);
      Some(KList(elem))
    else if datatype_ / 64 == 146 then
      var elem :- PrimitiveKind(datatype_ % 64);
      Some(KSet(elem))
    else if datatype_ / 64 == 147 then
      var key :- PrimitiveKind(datatype_ / 8 % 8);
      var value :- PrimitiveKind(datatype_ % 8);
      Some(KMap(key, value))
    else None
  }

  function OperandValue(datatype_: u16, bytes: Bytes): Option<Value> {
    var kind :- KindOfDatatype(datatype_);
    DecodeValue(kind, bytes)
  }

  // --------------------------------------------------------------- the fast path

  function OpOf(name: byte): Option<NumericOp> {
    if name == FUNC_NUM_ADD then Some(Add)
    else if name == FUNC_NUM_SUB then Some(Sub)
    else if name == FUNC_NUM_MUL then Some(Mul)
    else if name == FUNC_NUM_DIV then Some(Div)
    else if name == FUNC_NUM_MOD then Some(Mod)
    else if name == FUNC_NUM_AND then Some(And)
    else if name == FUNC_NUM_OR then Some(Or)
    else if name == FUNC_NUM_XOR then Some(Xor)
    else None
  }

  /** The arithmetic the guard lets through. */
  predicate FastName(name: byte) {
    || name == FUNC_NUM_ADD || name == FUNC_NUM_SUB || name == FUNC_NUM_MUL
    || name == FUNC_NUM_AND || name == FUNC_NUM_OR || name == FUNC_NUM_XOR
  }

  predicate FastFuncall(space: Space, f: Funcall) {
    f.arg2 == []
    && (f.name == FUNC_SET
        || (FastName(f.name) && AttributeAt(space, f.attr).Some? && AttributeAt(space, f.attr).value.kind.KInt?))
  }

  /** The guard: every function call of the request must be a fast one. */
  predicate CanUseRuntimeMutations(space: Space, funcalls: seq<Funcall>) {
    forall i :: 0 <= i < |funcalls| ==> FastFuncall(space, funcalls[i])
  }

  function MutationOf(space: Space, f: Funcall): Option<Mutation> {
    if f.name == FUNC_SET then
      var attribute :- AttributeAt(space, f.attr);
      var value :- OperandValue(f.arg1Datatype, f.arg1);
      Some(SetAttribute(attribute.name, value))
    else
      var op :- OpOf(f.name);
      var attribute :- AttributeAt(space, f.attr);
      var operand :- DecodeI64(f.arg1);
      Some(Numeric(attribute.name, op, operand))
  }

  function MutationsOf(space: Space, funcalls: seq<Funcall>): (ms: Option<seq<Mutation>>)
    ensures ms.Some? ==> |ms.value| == |funcalls|
  {
    if funcalls == [] then Some([])
    else
      var first :- MutationOf(space, funcalls[0]);
      var rest :- MutationsOf(space, funcalls[1..]);
      Some([first] + rest)
  }

  // ------------------------------------------------------------- the direct path

  /** Division rounded toward minus infinity; the one overflow wraps around. */
  function FloorDivMod(current: i64, operand: i64): Option<(i64, i64)> {
    if operand == 0 then None
    else if current == -TWO_63 && operand == -1 then Some((-TWO_63, 0))
    else
      var q := Quotient(current, operand);
      var r := current - operand * q;
      QuotientInRange(current, operand);
      if r != 0 && Sign(r) != Sign(operand) then Some((q - 1, r + operand)) else Some((q, r))
  }

  function Magnitude(x: int): nat { if x >= 0 then x else -x }

  /** Truncating division in terms of magnitudes. */
  lemma QuotientOfMagnitudes(x: int, y: int)
    requires y != 0
    ensures var q, r := Magnitude(x) / Magnitude(y), Magnitude(x) % Magnitude(y);
      && Quotient(x, y) == (if (x >= 0) == (y >= 0) then q else 0 - q)
      && x - y * Quotient(x, y) == if x >= 0 then r else 0 - r
  {
    var a, b := Magnitude(x), Magnitude(y);
    var q, r := a / b, a % b;
    if y < 0 { NegativeDivisor(a, b); }
    var nb: int, nq: int := 0 - b, 0 - q;
    assert a == b * q + r;
    assert nb * q == 0 - b * q && b * nq == 0 - b * q && nb * nq == b * q;
  }

  /** Euclidean division by a negative number. */
  lemma NegativeDivisor(a: nat, b: nat)
    requires b > 0
    ensures a / (0 - b) == 0 - a / b
  {
    var d := 0 - b;
    var p, s := a / d, a % d;
    assert a == d * p + s;
    var q: int := 0 - p;
    assert d * p == b * q;
    assert q >= 0 by { if q < 0 { MulMono(q, -1, b); } }
    QuotientExact(a, b, q);
    QuotientExact(a, b, q + 1);
    assert (q + 1) * b == q * b + b;
  }

  lemma QuotientInRange(x: i64, y: i64)
    requires y != 0 && !(x == -TWO_63 && y == -1)
    ensures var q, r := Quotient(x, y), x - y * Quotient(x, y);
      && -TWO_63 <= q < TWO_63 && -TWO_63 <= r < TWO_63
      && (r != 0 && Sign(r) != Sign(y) ==> -TWO_63 <= q - 1 && -TWO_63 <= r + y < TWO_63)
  {
    QuotientOfMagnitudes(x, y);
    var a, b := Magnitude(x), Magnitude(y);
    HalfOrLess(a, b);
  }

  lemma HalfOrLess(a: nat, b: nat)
    requires b > 0
    ensures a / b <= a && a % b <= a
    ensures b >= 2 ==> 2 * (a / b) <= a
    ensures b == 1 ==> a / b == a && a % b == 0
  {
    var q := a / b;
    assert a == b * q + a % b;
    if b >= 2 { MulMono(2, b, q); }
  }

  /** Integer arithmetic as the direct path does it. */
  function IntegerFuncall(name: byte, current: i64, operand: i64): Option<i64> {
    if name == FUNC_NUM_ADD then Some(SaturateI64(current + operand))
    else if name == FUNC_NUM_SUB then Some(SaturateI64(current - operand))
    else if name == FUNC_NUM_MUL then Some(SaturateI64(current * operand))
    else if name == FUNC_NUM_DIV then
      var r :- FloorDivMod(current, operand);
      Some(r.0)
    else if name == FUNC_NUM_MOD then
      var r :- FloorDivMod(current, operand);
      Some(r.1)
    else if name == FUNC_NUM_AND then Some(BitwiseI64(And, current, operand))
    else if name == FUNC_NUM_OR then Some(BitwiseI64(Or, current, operand))
    else if name == FUNC_NUM_XOR then Some(BitwiseI64(Xor, current, operand))
    else if name == FUNC_NUM_MAX then Some(Max(current, operand))
    else if name == FUNC_NUM_MIN then Some(Min(current, operand))
    else None
  }

  /** The direct path looks at the operand's tag: a float is rounded. */
  function DirectOperand(round: Rounding, f: Funcall): Option<i64> {
    if f.arg1Datatype == HYPERDATATYPE_INT64 then DecodeI64(f.arg1)
    else if f.arg1Datatype == HYPERDATATYPE_FLOAT then
      var bits :- DecodeF64(f.arg1);
      Some(round(bits))
    else None
  }

  /** The calls modelled here: plain assignment and integer arithmetic. */
  predicate IntegerCall(space: Space, f: Funcall) {
    f.name != FUNC_SET ==>
      && FUNC_NUM_ADD <= f.name <= FUNC_NUM_MIN
      && AttributeAt(space, f.attr).Some? && AttributeAt(space, f.attr).value.kind.KInt?
  }

  function ApplyFuncall(round: Rounding, space: Space, attributes: Attributes, f: Funcall): Option<Attributes>
    requires IntegerCall(space, f)
  {
    var attribute :- AttributeAt(space, f.attr);
    if f.name == FUNC_SET then
      var value :- OperandValue(f.arg1Datatype, f.arg1);
      Some(attributes[attribute.name := value])
    else
      var current := AttributeOr(attributes, attribute.name, Int(0));
      if !current.Int? then None
      else
        var operand :- DirectOperand(round, f);
        var updated :- IntegerFuncall(f.name, current.i, operand);
        Some(attributes[attribute.name := Int(updated)])
  }

  /** Whatever the guard admits is modelled here. */
  lemma AdmittedCallsAreInteger(space: Space, funcalls: seq<Funcall>)
    requires CanUseRuntimeMutations(space, funcalls)
    ensures IntegerCalls(space, funcalls)
  {
    forall i | 0 <= i < |funcalls| ensures IntegerCall(space, funcalls[i]) { assert FastFuncall(space, funcalls[i]); }
  }

  predicate IntegerCalls(space: Space, funcalls: seq<Funcall>) {
    forall i :: 0 <= i < |funcalls| ==> IntegerCall(space, funcalls[i])
  }

  function ApplyFuncalls(round: Rounding, space: Space, attributes: Attributes, funcalls: seq<Funcall>): Option<Attributes>
    requires IntegerCalls(space, funcalls)
    decreases |funcalls|
  {
    if funcalls == [] then Some(attributes)
    else
      var next :- ApplyFuncall(round, space, attributes, funcalls[0]);
      ApplyFuncalls(round, space, next, funcalls[1..])
  }

  /** The direct path's loop: it edits its copy of the record call by call. */
  method ApplyFuncallsInPlace(round: Rounding, space: Space, existing: Record, funcalls: seq<Funcall>)
    returns (r: Option<Record>)
    requires IntegerCalls(space, funcalls)
    ensures r == match ApplyFuncalls(round, space, existing.attributes, funcalls)
                 case None => None
                 case Some(attributes) => Some(existing.(attributes := attributes))
  {
    hide ApplyFuncall, IntegerCall;
    var record := existing;
    assert funcalls[0..] == funcalls;
    for i := 0 to |funcalls|
      invariant record.key == existing.key
      invariant ApplyFuncalls(round, space, record.attributes, funcalls[i..]) == ApplyFuncalls(round, space, existing.attributes, funcalls)
    {
      assert funcalls[i..][1..] == funcalls[i + 1..];
      var next := ApplyFuncall(round, space, record.attributes, funcalls[i]);
      if next.None? {
        return None;
      }
      record := record.(attributes := next.value);
    }
    assert funcalls[|funcalls|..] == [];
    r := Some(record);
  }

  // ------------------------------------------------------------ the paths compared

  predicate SameArithmetic(name: byte, current: i64, operand: i64)
    requires OpOf(name).Some?
  {
    match ApplyNumeric(current, OpOf(name).value, operand)
    case Ok(updated) => IntegerFuncall(name, current, operand) == Some(updated)
    case Err(_) => false
  }

  /** The guard lets through exactly the operations that the engine and the
      direct path compute alike on all operands: division and remainder round
      differently, and dividing by zero brings the engine down. */
  lemma GuardIsExact(name: byte)
    requires OpOf(name).Some?
    ensures (forall current: i64, operand: i64 :: SameArithmetic(name, current, operand)) <==> FastName(name)
  {
    if !FastName(name) {
      assert Quotient(-7, 2) == -3;
      assert !SameArithmetic(name, -7, 2);
    }
  }

  /** What a translated call does, failure taken as the direct path reports it. */
  function Translated(space: Space, attributes: Attributes, f: Funcall): Option<Attributes> {
    var m :- MutationOf(space, f);
    match ApplyMutation(attributes, m)
    case Ok(next) => Some(next)
    case Err(_) => None
  }

  /** The translation takes every operand for an integer, whatever its tag. */
  predicate ReadAlike(round: Rounding, f: Funcall) {
    f.name == FUNC_SET || DirectOperand(round, f) == DecodeI64(f.arg1)
  }

  predicate AllReadAlike(round: Rounding, funcalls: seq<Funcall>) {
    forall i :: 0 <= i < |funcalls| ==> ReadAlike(round, funcalls[i])
  }

  /** One translated call does to every record what the direct path does exactly
      if both read its operand alike, as they do every operand tagged integer. */
  lemma OneCallAgreesExactly(round: Rounding, space: Space, f: Funcall)
    requires FastFuncall(space, f)
    ensures (forall attributes: Attributes :: ApplyFuncall(round, space, attributes, f) == Translated(space, attributes, f))
            <==> ReadAlike(round, f)
  {
    hide DecodeI64, DecodeF64, OperandValue, IntegerFuncall, ApplyNumeric, MutationOf;
    if ReadAlike(round, f) {
      forall attributes: Attributes
        ensures ApplyFuncall(round, space, attributes, f) == Translated(space, attributes, f)
      {
        OneCallAgrees(round, space, attributes, f);
      }
    } else {
      var name := AttributeAt(space, f.attr).value.name;
      var direct, translated := DirectOperand(round, f), DecodeI64(f.arg1);
      var current := Telling(f.name);
      var record: Attributes := map[name := Int(current)];
      TranslatedArithmetic(space, record, f);
      assert AttributeOr(record, name, Int(0)) == Int(current);
      if direct.Some? { FastArithmeticAgrees(f.name, current, direct.value); }
      if translated.Some? { FastArithmeticAgrees(f.name, current, translated.value); }
      if direct.Some? && translated.Some? {
        TellsOperandsApart(f.name, direct.value, translated.value);
        var x, y := IntegerFuncall(f.name, current, direct.value).value, IntegerFuncall(f.name, current, translated.value).value;
        assert record[name := Int(x)][name] != record[name := Int(y)][name];
      }
      assert ApplyFuncall(round, space, record, f) != Translated(space, record, f);
    }
  }

  /** An old value under which an operation gives different results for
      different operands. */
  function Telling(name: byte): i64 {
    if name == FUNC_NUM_SUB || name == FUNC_NUM_AND then -1
    else if name == FUNC_NUM_MUL then 1
    else 0
  }

  lemma TellsOperandsApart(name: byte, a: i64, b: i64)
    requires FastName(name) && a != b
    ensures IntegerFuncall(name, Telling(name), a) != IntegerFuncall(name, Telling(name), b)
  {
    hide Bitwise;
    NeutralBits(a);
    NeutralBits(b);
  }

  lemma {:induction false} NeutralBits(x: int)
    ensures Bitwise(And, -1, x) == x && Bitwise(Or, 0, x) == x && Bitwise(Xor, 0, x) == x
    decreases if x < 0 then -x else x
  {
    if x < -1 || x > 0 {
      NeutralBits(x / 2);
      assert x == 2 * (x / 2) + x % 2;
    }
  }

  lemma TranslatedArithmetic(space: Space, attributes: Attributes, f: Funcall)
    requires FastFuncall(space, f) && f.name != FUNC_SET
    ensures OpOf(f.name).Some?
    ensures var name := AttributeAt(space, f.attr).value.name;
            var current := AttributeOr(attributes, name, Int(0));
            Translated(space, attributes, f) ==
              if DecodeI64(f.arg1).None? || !current.Int? then None
              else
                match ApplyNumeric(current.i, OpOf(f.name).value, DecodeI64(f.arg1).value)
                case Ok(updated) => Some(attributes[name := Int(updated)])
                case Err(_) => None
  {
    hide DecodeI64, ApplyNumeric;
  }

  /** One translated call does to a record what the direct path does. */
  lemma OneCallAgrees(round: Rounding, space: Space, attributes: Attributes, f: Funcall)
    requires FastFuncall(space, f) && ReadAlike(round, f)
    ensures ApplyFuncall(round, space, attributes, f) == Translated(space, attributes, f)
  {
    hide DecodeI64, DirectOperand, OperandValue, IntegerFuncall, ApplyNumeric;
    if f.name != FUNC_SET {
      TranslatedArithmetic(space, attributes, f);
      var current := AttributeOr(attributes, AttributeAt(space, f.attr).value.name, Int(0));
      if current.Int? && DecodeI64(f.arg1).Some? {
        FastArithmeticAgrees(f.name, current.i, DecodeI64(f.arg1).value);
      }
    }
  }

  lemma FastArithmeticAgrees(name: byte, current: i64, operand: i64)
    requires FastName(name)
    ensures OpOf(name).Some? && ApplyNumeric(current, OpOf(name).value, operand).Ok?
    ensures IntegerFuncall(name, current, operand) == Some(ApplyNumeric(current, OpOf(name).value, operand).value)
  {
    GuardIsExact(name);
    assert SameArithmetic(name, current, operand);
  }

  /** What the fast path makes of a record. */
  function ApplyTranslated(space: Space, attributes: Attributes, funcalls: seq<Funcall>): Option<Attributes> {
    match MutationsOf(space, funcalls)
    case None => None
    case Some(mutations) =>
      var applied := ApplyMutations(attributes, mutations);
      if applied.failure.None? then Some(applied.attributes) else None
  }

  /** The fast path refines the direct one: over any record and any request the
      guard accepts, translating and applying succeeds exactly when applying
      directly does, with the same attributes. */
  lemma {:induction false} FastPathAgrees(round: Rounding, space: Space, attributes: Attributes, funcalls: seq<Funcall>)
    requires CanUseRuntimeMutations(space, funcalls) && AllReadAlike(round, funcalls)
    ensures ApplyFuncalls(round, space, attributes, funcalls) == ApplyTranslated(space, attributes, funcalls)
    decreases |funcalls|
  {
    hide FastFuncall, IntegerCall, ReadAlike, MutationOf, ApplyFuncall, ApplyMutation;
    if funcalls != [] {
      var f, rest := funcalls[0], funcalls[1..];
      OneCallAgrees(round, space, attributes, f);
      var m := MutationOf(space, f);
      if m.Some? && ApplyMutation(attributes, m.value).Ok? {
        FastPathAgrees(round, space, ApplyMutation(attributes, m.value).value, rest);
        if MutationsOf(space, rest).Some? {
          assert ([m.value] + MutationsOf(space, rest).value)[1..] == MutationsOf(space, rest).value;
        }
      } else if m.Some? && MutationsOf(space, rest).Some? {
        assert ([m.value] + MutationsOf(space, rest).value)[0] == m.value;
      }
    }
  }

  // ------------------------------------------------------------------ what is stored

  /** The assignments the direct path stores its result with: one for each
      attribute of the record, in any order. */
  ghost predicate Assigns(sets: seq<Mutation>, attributes: Attributes) {
    && (forall m :: m in sets ==> m.SetAttribute? && m.attribute in attributes && m.value == attributes[m.attribute])
    && (forall name :: name in attributes ==> SetAttribute(name, attributes[name]) in sets)
  }

  /** The table the direct path leaves: a request that fails stores nothing. */
  function DirectTable(round: Rounding, space: Space, table: Table, key: Bytes, funcalls: seq<Funcall>): Table
    requires IntegerCalls(space, funcalls)
  {
    var record := RecordOrNew(table, key);
    match ApplyFuncalls(round, space, record.attributes, funcalls)
    case None => table
    case Some(attributes) => table[key := record.(attributes := attributes)]
  }

  /** The table the fast path leaves: a request that translates is put. */
  function FastTable(space: Space, table: Table, key: Bytes, funcalls: seq<Funcall>): Table {
    match MutationsOf(space, funcalls)
    case None => table
    case Some(mutations) => PutTable(table, key, mutations)
  }

  lemma {:induction false} AssignmentsApply(before: Attributes, sets: seq<Mutation>, target: Attributes)
    requires forall m :: m in sets ==> m.SetAttribute? && m.attribute in target && m.value == target[m.attribute]
    ensures ApplyMutations(before, sets).failure.None?
    ensures var after := ApplyMutations(before, sets).attributes;
      && (forall m :: m in sets ==> m.attribute in after && after[m.attribute] == target[m.attribute])
      && (forall name :: name in after ==> name in before || name in target)
      && (forall name :: name in before ==>
            name in after && (after[name] == before[name] || (name in target && after[name] == target[name])))
    decreases |sets|
  {
    if sets != [] {
      var m := sets[0];
      assert m in sets;
      AssignmentsApply(before[m.attribute := m.value], sets[1..], target);
      assert forall x :: x in sets ==> x == m || x in sets[1..];
    }
  }

  lemma {:induction false} CallsKeepAttributes(round: Rounding, space: Space, attributes: Attributes, funcalls: seq<Funcall>)
    requires IntegerCalls(space, funcalls) && ApplyFuncalls(round, space, attributes, funcalls).Some?
    ensures attributes.Keys <= ApplyFuncalls(round, space, attributes, funcalls).value.Keys
    decreases |funcalls|
  {
    hide IntegerFuncall, DirectOperand, OperandValue;
    if funcalls != [] {
      assert IntegerCall(space, funcalls[0]);
      CallsKeepAttributes(round, space, ApplyFuncall(round, space, attributes, funcalls[0]).value, funcalls[1..]);
    }
  }

  /** Putting the assignments stores exactly the record the calls made, in
      whatever order its attributes are listed. */
  lemma DirectPathStores(round: Rounding, space: Space, table: Table, key: Bytes, funcalls: seq<Funcall>, sets: seq<Mutation>)
    requires IntegerCalls(space, funcalls)
    requires var direct := ApplyFuncalls(round, space, RecordOrNew(table, key).attributes, funcalls);
      direct.Some? && Assigns(sets, direct.value)
    ensures PutFailure(table, key, sets).None?
    ensures PutTable(table, key, sets) == DirectTable(round, space, table, key, funcalls)
  {
    hide IntegerCall;
    var before := RecordOrNew(table, key).attributes;
    var direct := ApplyFuncalls(round, space, before, funcalls).value;
    CallsKeepAttributes(round, space, before, funcalls);
    AssignmentsApply(before, sets, direct);
    assert ApplyMutations(before, sets).attributes == direct by { AssignedAll(before, sets, direct); }
  }

  lemma AssignedAll(before: Attributes, sets: seq<Mutation>, target: Attributes)
    requires Assigns(sets, target) && before.Keys <= target.Keys
    ensures ApplyMutations(before, sets).attributes == target
  {
    AssignmentsApply(before, sets, target);
    var after := ApplyMutations(before, sets).attributes;
    forall name | name in target ensures name in after && after[name] == target[name] {
      assert SetAttribute(name, target[name]) in sets;
    }
  }

  /** When a request succeeds, both paths leave the same table behind. */
  lemma BothPathsStoreTheSame(round: Rounding, space: Space, table: Table, key: Bytes, funcalls: seq<Funcall>, sets: seq<Mutation>)
    requires CanUseRuntimeMutations(space, funcalls) && AllReadAlike(round, funcalls)
    requires var direct := ApplyFuncalls(round, space, RecordOrNew(table, key).attributes, funcalls);
      direct.Some? && Assigns(sets, direct.value)
    ensures PutFailure(table, key, sets).None?
    ensures PutTable(table, key, sets) == FastTable(space, table, key, funcalls)
  {
    hide IntegerCall, FastFuncall, ReadAlike, MutationsOf;
    AdmittedCallsAreInteger(space, funcalls);
    FastPathAgrees(round, space, RecordOrNew(table, key).attributes, funcalls);
    DirectPathStores(round, space, table, key, funcalls, sets);
  }

  // ------------------------------------------------------- when failures leave a trace

  /** Assignments and the arithmetic that cannot fail on integers. */
  predicate Fast(ms: seq<Mutation>) {
    forall i :: 0 <= i < |ms| ==> FastMutation(ms[i])
  }

  predicate FastMutation(m: Mutation) {
    m.SetAttribute? || (m.Numeric? && !m.op.Div? && !m.op.Mod?)
  }

  /** The last of the mutations that is on an attribute. */
  function LastOn(ms: seq<Mutation>, name: Name): (last: Option<Mutation>)
    ensures last.Some? ==> last.value in ms && last.value.attribute == name
  {
    if ms == [] then None
    else if ms[|ms| - 1].attribute == name then Some(ms[|ms| - 1])
    else LastOn(ms[..|ms| - 1], name)
  }

  predicate LeavesInt(last: Option<Mutation>) {
    last.Some? && (last.value.Numeric? || (last.value.SetAttribute? && last.value.value.Int?))
  }

  /** Arithmetic after the first call is on an attribute that an earlier call
      has left an integer. */
  predicate Prepared(ms: seq<Mutation>, j: nat)
    requires j < |ms|
  {
    ms[j].Numeric? ==> LeavesInt(LastOn(ms[..j], ms[j].attribute))
  }

  predicate Steady(ms: seq<Mutation>) {
    forall j: nat :: 1 <= j < |ms| ==> Prepared(ms, j)
  }

  /** The value a successful list leaves is that of its last mutation. */
  lemma {:induction false} LastDecides(attributes: Attributes, ms: seq<Mutation>, name: Name)
    requires Fast(ms) && ApplyMutations(attributes, ms).failure.None?
    ensures var after := ApplyMutations(attributes, ms).attributes;
      match LastOn(ms, name)
      case None => (name in after <==> name in attributes) && (name in after ==> after[name] == attributes[name])
      case Some(m) => name in after && if m.SetAttribute? then after[name] == m.value else after[name].Int?
    decreases |ms|
  {
    hide ApplyNumeric, ApplyMutation;
    if ms != [] {
      var n := |ms| - 1;
      SplitLast(attributes, ms);
      LastDecides(attributes, ms[..n], name);
      FastEffect(ApplyMutations(attributes, ms[..n]).attributes, ms[n]);
    }
  }

  lemma {:induction false} SplitLast(attributes: Attributes, ms: seq<Mutation>)
    requires ms != []
    ensures var n := |ms| - 1; var before := ApplyMutations(attributes, ms[..n]);
      ApplyMutations(attributes, ms) ==
        if before.failure.Some? then before
        else
          match ApplyMutation(before.attributes, ms[n])
          case Ok(next) => Applied(next, None)
          case Err(e) => Applied(before.attributes, Some(e))
    decreases |ms|
  {
    hide ApplyMutation;
    if |ms| == 1 {
      assert ms[1..] == [] && ms[..0] == [];
    } else {
      assert ms[..|ms| - 1][1..] == ms[1..][..|ms| - 2];
      if ApplyMutation(attributes, ms[0]).Ok? {
        SplitLast(ApplyMutation(attributes, ms[0]).value, ms[1..]);
      }
    }
  }

  lemma FastEffect(attributes: Attributes, m: Mutation)
    requires FastMutation(m)
    ensures ApplyMutation(attributes, m).Ok? <==> (m.Numeric? ==> AttributeOr(attributes, m.attribute, Int(0)).Int?)
    ensures ApplyMutation(attributes, m).Ok? ==>
      var after := ApplyMutation(attributes, m).value;
      && after.Keys == attributes.Keys + {m.attribute}
      && (forall name :: name in attributes && name != m.attribute ==> after[name] == attributes[name])
      && if m.SetAttribute? then after[m.attribute] == m.value else after[m.attribute].Int?
  {
    hide Bitwise, SaturateI64;
  }

  /** A steady list on a record that its first call suits does not fail. */
  lemma {:induction false} SteadySucceeds(attributes: Attributes, ms: seq<Mutation>)
    requires Fast(ms) && Steady(ms)
    requires ms != [] && ms[0].Numeric? ==> AttributeOr(attributes, ms[0].attribute, Int(0)).Int?
    ensures ApplyMutations(attributes, ms).failure.None?
    decreases |ms|
  {
    hide ApplyMutation, LastOn;
    if ms != [] {
      var n := |ms| - 1;
      SplitLast(attributes, ms);
      SteadyPrefix(ms, n);
      SteadySucceeds(attributes, ms[..n]);
      var before := ApplyMutations(attributes, ms[..n]).attributes;
      if n == 0 {
        assert before == attributes;
      } else {
        assert Prepared(ms, n);
        LastDecides(attributes, ms[..n], ms[n].attribute);
      }
      FastEffect(before, ms[n]);
    }
  }

  lemma SteadyPrefix(ms: seq<Mutation>, n: nat)
    requires n <= |ms| && forall j: nat :: 1 <= j < n ==> Prepared(ms, j)
    ensures Steady(ms[..n])
  {
    hide LastOn, LeavesInt;
    forall j: nat | 1 <= j < |ms[..n]| ensures Prepared(ms[..n], j) {
      assert ms[..n][..j] == ms[..j];
      assert Prepared(ms, j);
    }
  }

  /** A put with such a list that fails leaves no trace, on every table. */
  ghost predicate AllOrNothing(ms: seq<Mutation>) {
    forall table: Table, key: Bytes :: PutFailure(table, key, ms).Some? ==> PutTable(table, key, ms) == table
  }

  /** A steady list can fail at its first mutation only. */
  lemma SteadyLeavesNoTrace(table: Table, key: Bytes, ms: seq<Mutation>)
    requires Fast(ms) && Steady(ms) && PutFailure(table, key, ms).Some?
    ensures PutTable(table, key, ms) == table
  {
    hide ApplyMutation, Steady;
    var record := RecordOrNew(table, key);
    if ms[0].Numeric? && !AttributeOr(record.attributes, ms[0].attribute, Int(0)).Int? {
      FastEffect(record.attributes, ms[0]);
      assert ApplyMutations(record.attributes, ms).attributes == record.attributes;
      assert table[key := table[key]] == table;
    } else {
      SteadySucceeds(record.attributes, ms);
    }
  }

  /** The first arithmetic that is not prepared fails on some table after the
      calls before it were stored. */
  lemma UnsteadyLeavesTrace(ms: seq<Mutation>, j: nat)
    requires Fast(ms) && 1 <= j < |ms| && !Prepared(ms, j)
    requires forall k: nat :: 1 <= k < j ==> Prepared(ms, k)
    ensures !AllOrNothing(ms)
  {
    hide ApplyMutation, LastOn, Steady;
    var name, before := ms[j].attribute, ms[..j];
    var table: Table, key: Bytes := map[], [];
    if LastOn(before, name).None? {
      table := map[key := Record(key, map[name := Null])];
      LastOnFirst(before);
    }
    var attributes := RecordOrNew(table, key).attributes;
    SteadyPrefix(ms, j);
    SteadySucceeds(attributes, before);
    LastDecides(attributes, before, name);
    LastDecides(attributes, before, ms[0].attribute);
    var after := ApplyMutations(attributes, before).attributes;
    FastEffect(after, ms[j]);
    if LastOn(before, name).Some? { assert FastMutation(LastOn(before, name).value); }
    assert !AttributeOr(after, name, Int(0)).Int?;
    StopsAt(attributes, ms, j);
    assert PutTable(table, key, ms)[key].attributes == after;
    if LastOn(before, name).None? {
      assert ms[0].attribute in after && ms[0].attribute !in table[key].attributes;
    }
    assert PutFailure(table, key, ms).Some? && PutTable(table, key, ms) != table;
  }

  lemma {:induction false} LastOnFirst(ms: seq<Mutation>)
    requires ms != []
    ensures LastOn(ms, ms[0].attribute).Some?
    decreases |ms|
  {
    if |ms| > 1 { LastOnFirst(ms[..|ms| - 1]); }
  }

  lemma StopsAt(attributes: Attributes, ms: seq<Mutation>, j: nat)
    requires j < |ms| && ApplyMutations(attributes, ms[..j]).failure.None?
    requires ApplyMutation(ApplyMutations(attributes, ms[..j]).attributes, ms[j]).Err?
    ensures ApplyMutations(attributes, ms).failure.Some?
    ensures ApplyMutations(attributes, ms).attributes == ApplyMutations(attributes, ms[..j]).attributes
  {
    hide ApplyMutation;
    ApplyMutationsConcat(attributes, ms[..j], ms[j..]);
    assert ms[..j] + ms[j..] == ms;
  }

  /** Which fast lists leave no trace when they fail, from the list alone. */
  lemma AllOrNothingExact(ms: seq<Mutation>)
    requires Fast(ms)
    ensures AllOrNothing(ms) <==> Steady(ms)
  {
    hide Fast, Prepared;
    if Steady(ms) {
      forall table: Table, key: Bytes | PutFailure(table, key, ms).Some? ensures PutTable(table, key, ms) == table {
        SteadyLeavesNoTrace(table, key, ms);
      }
    } else {
      var j := FirstUnprepared(ms, 1);
      UnsteadyLeavesTrace(ms, j);
    }
  }

  lemma {:induction false} FirstUnprepared(ms: seq<Mutation>, from: nat) returns (j: nat)
    requires 1 <= from && !Steady(ms) && forall k: nat :: 1 <= k < from ==> k < |ms| && Prepared(ms, k)
    ensures 1 <= j < |ms| && !Prepared(ms, j)
    ensures forall k: nat :: 1 <= k < j ==> Prepared(ms, k)
    decreases |ms| - from
  {
    hide Prepared;
    assert from < |ms|;
    if Prepared(ms, from) { j := FirstUnprepared(ms, from + 1); } else { j := from; }
  }

  lemma {:induction false} TranslationIsFast(space: Space, funcalls: seq<Funcall>)
    requires CanUseRuntimeMutations(space, funcalls) && MutationsOf(space, funcalls).Some?
    ensures Fast(MutationsOf(space, funcalls).value)
  {
    hide DecodeI64, OperandValue;
    if funcalls != [] {
      assert FastFuncall(space, funcalls[0]);
      TranslationIsFast(space, funcalls[1..]);
    }
  }

  /** An instance: two additions, the second of which meets a value that is no
      number. The fast path has stored the first, the direct path nothing. */
  lemma FailedRequestsDiffer(round: Rounding, space: Space, table: Table, key: Bytes)
    requires |space.attributes| >= 2 && space.attributes[0].kind.KInt? && space.attributes[1].kind.KInt?
    requires space.attributes[0].name != space.attributes[1].name
    requires key in table && space.attributes[0].name !in table[key].attributes
    requires space.attributes[1].name in table[key].attributes && !table[key].attributes[space.attributes[1].name].Int?
    ensures var add1, add2 := Funcall(1, FUNC_NUM_ADD, LeI64(1), HYPERDATATYPE_INT64, [], 0),
                              Funcall(2, FUNC_NUM_ADD, LeI64(1), HYPERDATATYPE_INT64, [], 0);
      && CanUseRuntimeMutations(space, [add1, add2])
      && AllReadAlike(round, [add1, add2])
      && ApplyFuncalls(round, space, table[key].attributes, [add1, add2]).None?
      && MutationsOf(space, [add1, add2]).Some?
      && PutTable(table, key, MutationsOf(space, [add1, add2]).value) != table
  {
    hide LeI64, DecodeI64;
    var add1, add2 := Funcall(1, FUNC_NUM_ADD, LeI64(1), HYPERDATATYPE_INT64, [], 0),
                      Funcall(2, FUNC_NUM_ADD, LeI64(1), HYPERDATATYPE_INT64, [], 0);
    var calls := [add1, add2];
    var first, second := space.attributes[0].name, space.attributes[1].name;
    I64RoundTrip(1, []);
    assert LeI64(1) + [] == LeI64(1);
    var m1, m2 := Numeric(first, Add, 1), Numeric(second, Add, 1);
    assert calls[1..] == [add2] && calls[1..][1..] == [];
    OneTranslated(space, add1, first);
    OneTranslated(space, add2, second);
    BothTranslated(space, add1, add2, m1, m2);
    FastPathAgrees(round, space, table[key].attributes, calls);
    var before := table[key].attributes;
    var next := before[first := Int(1)];
    assert ApplyMutation(before, m1) == Ok(next);
    assert ApplyMutation(next, m2) == Err(NonNumeric);
    assert [m1, m2][1..] == [m2];
    assert ApplyMutations(before, [m1, m2]) == Applied(next, Some(NonNumeric));
    assert first in PutTable(table, key, [m1, m2])[key].attributes;
  }

  lemma BothTranslated(space: Space, f1: Funcall, f2: Funcall, m1: Mutation, m2: Mutation)
    requires MutationOf(space, f1) == Some(m1) && MutationOf(space, f2) == Some(m2)
    ensures MutationsOf(space, [f1, f2]) == Some([m1, m2])
  {
    hide MutationOf;
    var one := [f2];
    assert one[1..] == [] && MutationsOf(space, one[1..]) == Some([]);
    assert MutationsOf(space, one) == Some([m2] + []);
    assert [f1, f2][1..] == one && [m2] + [] == [m2] && [m1] + [m2] == [m1, m2];
  }

  lemma OneTranslated(space: Space, f: Funcall, name: Name)
    requires f.name == FUNC_NUM_ADD && AttributeAt(space, f.attr).Some? && AttributeAt(space, f.attr).value.name == name
    requires DecodeI64(f.arg1) == Some(1)
    ensures MutationOf(space, f) == Some(Numeric(name, Add, 1))
  {
    hide DecodeI64;
  }
}
