/** Which atomic requests leave the same table by the shortcut and by the direct
    path, operands that the two read differently included (crates/server). */
module AtomicEffects {
  import opened AtomicPath
  import opened Base
  import opened ContainerValues
  import opened DataModel
  import opened Engine
  import opened Protocol

  // ------------------------------------------------- the direct path as mutations

  /** What the source's validation demands of arithmetic on integers. */
  predicate NumericTag(f: Funcall) {
    f.name != FUNC_SET ==> f.arg1Datatype == HYPERDATATYPE_INT64 || f.arg1Datatype == HYPERDATATYPE_FLOAT
  }

  predicate NumericTags(funcalls: seq<Funcall>) { forall i :: 0 <= i < |funcalls| ==> NumericTag(funcalls[i]) }

  /** The mutation that does what the direct path does for an admitted call. */
  function DirectMutationOf(round: Rounding, space: Space, f: Funcall): Option<Mutation> {
    if f.name == FUNC_SET then MutationOf(space, f)
    else
      var op :- OpOf(f.name);
      var attribute :- AttributeAt(space, f.attr);
      var operand :- DirectOperand(round, f);
      Some(Numeric(attribute.name, op, operand))
  }

  function DirectMutationsOf(round: Rounding, space: Space, funcalls: seq<Funcall>): Option<seq<Mutation>> {
    if funcalls == [] then Some([])
    else
      var first :- DirectMutationOf(round, space, funcalls[0]);
      var rest :- DirectMutationsOf(round, space, funcalls[1..]);
      Some([first] + rest)
  }

  /** The record a list leaves if it succeeds. */
  function Outcome(attributes: Attributes, mutations: Option<seq<Mutation>>): Option<Attributes> {
    var ms :- mutations;
    var applied := ApplyMutations(attributes, ms);
    if applied.failure.None? then Some(applied.attributes) else None
  }

  lemma OneDirectCall(round: Rounding, space: Space, attributes: Attributes, f: Funcall)
    requires FastFuncall(space, f)
    ensures IntegerCall(space, f)
    ensures ApplyFuncall(round, space, attributes, f) ==
      match DirectMutationOf(round, space, f)
      case None => None
      case Some(d) =>
        match ApplyMutation(attributes, d)
        case Ok(next) => Some(next)
        case Err(_) => None
  {
    hide DirectOperand, OperandValue, IntegerFuncall, ApplyNumeric;
    if f.name != FUNC_SET {
      var current := AttributeOr(attributes, AttributeAt(space, f.attr).value.name, Int(0));
      if current.Int? && DirectOperand(round, f).Some? {
        FastArithmeticAgrees(f.name, current.i, DirectOperand(round, f).value);
      }
    }
  }

  /** The direct path does to every record what its mutations do. */
  lemma {:induction false} DirectPathIsAList(round: Rounding, space: Space, attributes: Attributes, funcalls: seq<Funcall>)
    requires CanUseRuntimeMutations(space, funcalls)
    ensures IntegerCalls(space, funcalls)
    ensures ApplyFuncalls(round, space, attributes, funcalls) == Outcome(attributes, DirectMutationsOf(round, space, funcalls))
    decreases |funcalls|
  {
    hide FastFuncall, IntegerCall, DirectMutationOf, ApplyFuncall, ApplyMutation;
    AdmittedCallsAreInteger(space, funcalls);
    if funcalls != [] {
      var f, rest := funcalls[0], funcalls[1..];
      OneDirectCall(round, space, attributes, f);
      var d := DirectMutationOf(round, space, f);
      if d.Some? && ApplyMutation(attributes, d.value).Ok? {
        DirectPathIsAList(round, space, ApplyMutation(attributes, d.value).value, rest);
        if DirectMutationsOf(round, space, rest).Some? {
          assert ([d.value] + DirectMutationsOf(round, space, rest).value)[1..] == DirectMutationsOf(round, space, rest).value;
        }
      } else if d.Some? && DirectMutationsOf(round, space, rest).Some? {
        assert ([d.value] + DirectMutationsOf(round, space, rest).value)[0] == d.value;
      }
    }
  }

  /** The same mutation but for the operand of arithmetic. */
  predicate Twin(m: Mutation, d: Mutation) {
    m == d || (m.Numeric? && d.Numeric? && m.attribute == d.attribute && m.op == d.op)
  }

  predicate Twins(ms: seq<Mutation>, ds: seq<Mutation>) {
    |ms| == |ds| && forall i :: 0 <= i < |ms| ==> Twin(ms[i], ds[i])
  }

  /** A request translates exactly if the direct path can read all its calls, and
      the two lists differ in operands only. */
  lemma {:induction false} TranslationsAreTwins(round: Rounding, space: Space, funcalls: seq<Funcall>)
    requires CanUseRuntimeMutations(space, funcalls) && NumericTags(funcalls)
    ensures MutationsOf(space, funcalls).Some? <==> DirectMutationsOf(round, space, funcalls).Some?
    ensures MutationsOf(space, funcalls).Some? ==>
      Twins(MutationsOf(space, funcalls).value, DirectMutationsOf(round, space, funcalls).value)
    ensures AllReadAlike(round, funcalls) ==> DirectMutationsOf(round, space, funcalls) == MutationsOf(space, funcalls)
    decreases |funcalls|
  {
    hide OperandValue, DecodeI64, DecodeF64;
    if funcalls != [] {
      assert FastFuncall(space, funcalls[0]) && NumericTag(funcalls[0]);
      assert AllReadAlike(round, funcalls) ==> ReadAlike(round, funcalls[0]) && AllReadAlike(round, funcalls[1..]);
      BothReadEightBytes(funcalls[0].arg1);
      TranslationsAreTwins(round, space, funcalls[1..]);
    }
  }

  lemma BothReadEightBytes(bytes: Bytes)
    ensures DecodeI64(bytes).Some? <==> DecodeF64(bytes).Some?
  {
  }

  // ------------------------------------------------------- one attribute at a time

  function EffectOf(m: Mutation, name: Name, v: Value): Value {
    if m.attribute != name then v
    else
      match m
      case SetAttribute(_, x) => x
      case Numeric(_, op, operand) =>
        if v.Int? && ApplyNumeric(v.i, op, operand).Ok? then Int(ApplyNumeric(v.i, op, operand).value) else v
      case _ => v
  }

  /** What the mutations on one attribute make of its value. */
  function Effect(ms: seq<Mutation>, name: Name, v: Value): Value
    decreases |ms|
  {
    if ms == [] then v else Effect(ms[1..], name, EffectOf(ms[0], name, v))
  }

  /** On an attribute the two lists make the same of every number. */
  ghost predicate SameEffect(ms: seq<Mutation>, ds: seq<Mutation>, name: Name) {
    forall c: i64 :: Effect(ms, name, Int(c)) == Effect(ds, name, Int(c))
  }

  ghost predicate SameEffects(ms: seq<Mutation>, ds: seq<Mutation>) { forall name :: SameEffect(ms, ds, name) }

  lemma OneEffect(attributes: Attributes, m: Mutation, name: Name)
    requires FastMutation(m) && ApplyMutation(attributes, m).Ok?
    ensures AttributeOr(ApplyMutation(attributes, m).value, name, Int(0)) == EffectOf(m, name, AttributeOr(attributes, name, Int(0)))
  {
    hide Bitwise, SaturateI64;
  }

  /** A list that succeeds has its effect on each attribute. */
  lemma {:induction false} EffectIsValue(attributes: Attributes, ms: seq<Mutation>, name: Name)
    requires Fast(ms) && ApplyMutations(attributes, ms).failure.None?
    ensures AttributeOr(ApplyMutations(attributes, ms).attributes, name, Int(0))
      == Effect(ms, name, AttributeOr(attributes, name, Int(0)))
    decreases |ms|
  {
    hide ApplyMutation, EffectOf;
    if ms != [] {
      OneEffect(attributes, ms[0], name);
      EffectIsValue(ApplyMutation(attributes, ms[0]).value, ms[1..], name);
    }
  }

  /** Records with the same attributes, and integers under the same ones. */
  predicate SameShape(a: Attributes, b: Attributes) {
    a.Keys == b.Keys && forall name :: name in a ==> (a[name].Int? <==> b[name].Int?)
  }

  lemma TwinStep(a: Attributes, b: Attributes, m: Mutation, d: Mutation)
    requires SameShape(a, b) && FastMutation(m) && Twin(m, d)
    ensures FastMutation(d) && (ApplyMutation(a, m).Ok? <==> ApplyMutation(b, d).Ok?)
    ensures ApplyMutation(a, m).Ok? ==> SameShape(ApplyMutation(a, m).value, ApplyMutation(b, d).value)
  {
    hide ApplyMutation;
    FastEffect(a, m);
    FastEffect(b, d);
  }

  /** Twins succeed on the same records. */
  lemma {:induction false} TwinsSucceedAlike(a: Attributes, b: Attributes, ms: seq<Mutation>, ds: seq<Mutation>)
    requires SameShape(a, b) && Fast(ms) && Twins(ms, ds)
    ensures Fast(ds)
    ensures ApplyMutations(a, ms).failure.None? <==> ApplyMutations(b, ds).failure.None?
    ensures ApplyMutations(a, ms).failure.None? ==>
      SameShape(ApplyMutations(a, ms).attributes, ApplyMutations(b, ds).attributes)
    decreases |ms|
  {
    hide ApplyMutation, SameShape;
    forall i | 0 <= i < |ds| ensures FastMutation(ds[i]) { assert FastMutation(ms[i]) && Twin(ms[i], ds[i]); }
    if ms != [] {
      TwinStep(a, b, ms[0], ds[0]);
      if ApplyMutation(a, ms[0]).Ok? {
        TwinsSucceedAlike(ApplyMutation(a, ms[0]).value, ApplyMutation(b, ds[0]).value, ms[1..], ds[1..]);
      }
    }
  }

  /** If both succeed and have the same effect on every number, they have the same
      effect on the value at hand: were it no number, both would begin by
      assigning the same one. */
  lemma {:induction false} EffectOnValue(a: Attributes, ms: seq<Mutation>, ds: seq<Mutation>, name: Name)
    requires Fast(ms) && Twins(ms, ds) && ApplyMutations(a, ms).failure.None? && SameEffect(ms, ds, name)
    ensures Effect(ms, name, AttributeOr(a, name, Int(0))) == Effect(ds, name, AttributeOr(a, name, Int(0)))
    decreases |ms|
  {
    hide ApplyNumeric;
    var v := AttributeOr(a, name, Int(0));
    if v.Int? {
      assert Effect(ms, name, Int(v.i)) == Effect(ds, name, Int(v.i));
    } else if ms != [] {
      var m, d, rest, drest := ms[0], ds[0], ms[1..], ds[1..];
      assert FastMutation(m) && Twin(m, d);
      if m.attribute == name {
        assert m.SetAttribute? && d == m;
        assert Effect(ms, name, Int(0)) == Effect(ds, name, Int(0));
      } else {
        forall c: i64 ensures Effect(rest, name, Int(c)) == Effect(drest, name, Int(c)) {
          assert Effect(ms, name, Int(c)) == Effect(ds, name, Int(c));
        }
        OneEffect(a, m, name);
        EffectOnValue(ApplyMutation(a, m).value, rest, drest, name);
      }
    }
  }

  // ------------------------------------------------------------ whole tables

  /** A list put if it succeeds, and otherwise nothing. */
  function PutIfWhole(table: Table, key: Bytes, ds: seq<Mutation>): Table {
    if PutFailure(table, key, ds).None? then PutTable(table, key, ds) else table
  }

  ghost predicate SameTables(ms: seq<Mutation>, ds: seq<Mutation>) {
    forall table: Table, key: Bytes :: PutTable(table, key, ms) == PutIfWhole(table, key, ds)
  }

  lemma SteadyTwinsAgree(table: Table, key: Bytes, ms: seq<Mutation>, ds: seq<Mutation>)
    requires Fast(ms) && Twins(ms, ds) && Steady(ms) && SameEffects(ms, ds)
    ensures PutTable(table, key, ms) == PutIfWhole(table, key, ds)
  {
    hide Steady, Fast, Twins, Effect, ApplyMutations;
    var record := RecordOrNew(table, key);
    TwinsSucceedAlike(record.attributes, record.attributes, ms, ds);
    if PutFailure(table, key, ms).Some? {
      SteadyLeavesNoTrace(table, key, ms);
    } else {
      var x, y := ApplyMutations(record.attributes, ms).attributes, ApplyMutations(record.attributes, ds).attributes;
      forall name | name in x ensures x[name] == y[name] {
        assert SameEffect(ms, ds, name);
        EffectOnValue(record.attributes, ms, ds, name);
        EffectIsValue(record.attributes, ms, name);
        EffectIsValue(record.attributes, ds, name);
      }
      assert x == y;
    }
  }

  lemma SameTablesMeansSteady(ms: seq<Mutation>, ds: seq<Mutation>)
    requires Fast(ms) && Twins(ms, ds) && SameTables(ms, ds)
    ensures Steady(ms)
  {
    hide Steady, Fast, Twins, ApplyMutations;
    forall table: Table, key: Bytes | PutFailure(table, key, ms).Some? ensures PutTable(table, key, ms) == table {
      var record := RecordOrNew(table, key);
      TwinsSucceedAlike(record.attributes, record.attributes, ms, ds);
      assert PutTable(table, key, ms) == PutIfWhole(table, key, ds);
    }
    AllOrNothingExact(ms);
  }

  /** A number of which the two lists make different things, in a record of its own. */
  lemma SameTablesMeansSameEffect(ms: seq<Mutation>, ds: seq<Mutation>, name: Name, c: i64)
    requires Fast(ms) && Twins(ms, ds) && SameTables(ms, ds)
    ensures Effect(ms, name, Int(c)) == Effect(ds, name, Int(c))
  {
    hide Steady, Fast, Twins, ApplyMutations, Effect;
    SameTablesMeansSteady(ms, ds);
    var attributes: Attributes := map[name := Int(c)];
    var table: Table, key: Bytes := map[[] := Record([], attributes)], [];
    SteadySucceeds(attributes, ms);
    TwinsSucceedAlike(attributes, attributes, ms, ds);
    EffectIsValue(attributes, ms, name);
    EffectIsValue(attributes, ds, name);
    assert PutTable(table, key, ms) == PutIfWhole(table, key, ds);
    assert PutTable(table, key, ms)[key].attributes == PutTable(table, key, ds)[key].attributes;
  }

  lemma TwinTablesExactly(ms: seq<Mutation>, ds: seq<Mutation>)
    requires Fast(ms) && Twins(ms, ds)
    ensures SameTables(ms, ds) <==> Steady(ms) && SameEffects(ms, ds)
  {
    hide Steady, Fast, Twins, Effect;
    if Steady(ms) && SameEffects(ms, ds) {
      forall table: Table, key: Bytes ensures PutTable(table, key, ms) == PutIfWhole(table, key, ds) {
        SteadyTwinsAgree(table, key, ms, ds);
      }
    }
    if SameTables(ms, ds) {
      SameTablesMeansSteady(ms, ds);
      forall name, c: i64 ensures Effect(ms, name, Int(c)) == Effect(ds, name, Int(c)) {
        SameTablesMeansSameEffect(ms, ds, name, c);
      }
    }
  }

  /** The two paths leave the same table for every table and key exactly if no
      call is put at all because one does not translate, or else each arithmetic
      call after the first is on an attribute that an earlier call of the request
      left an integer, and the operands as the two paths read them come to the
      same on each attribute. Otherwise a failing request is kept in part by the
      fast path, or a successful one leaves another number. */
  lemma PathsAgreeExactly(round: Rounding, space: Space, funcalls: seq<Funcall>)
    requires CanUseRuntimeMutations(space, funcalls) && NumericTags(funcalls)
    ensures IntegerCalls(space, funcalls)
    ensures
      var ms, ds := MutationsOf(space, funcalls), DirectMutationsOf(round, space, funcalls);
      (forall table: Table, key: Bytes ::
         FastTable(space, table, key, funcalls) == DirectTable(round, space, table, key, funcalls))
      <==> (ms.None? || (ds.Some? && Steady(ms.value) && SameEffects(ms.value, ds.value)))
  {
    hide CanUseRuntimeMutations, IntegerCalls, NumericTags, MutationsOf, DirectMutationsOf, Steady, SameEffects, Fast,
         ApplyMutations, ApplyFuncalls, Twins;
    AdmittedCallsAreInteger(space, funcalls);
    TranslationsAreTwins(round, space, funcalls);
    var ms, ds := MutationsOf(space, funcalls), DirectMutationsOf(round, space, funcalls);
    forall table: Table, key: Bytes
      ensures DirectTable(round, space, table, key, funcalls) == if ds.None? then table else PutIfWhole(table, key, ds.value)
    {
      DirectPathIsAList(round, space, RecordOrNew(table, key).attributes, funcalls);
    }
    if ms.Some? {
      TranslationIsFast(space, funcalls);
      TwinTablesExactly(ms.value, ds.value);
      if !SameTables(ms.value, ds.value) {
        var table: Table, key: Bytes :| PutTable(table, key, ms.value) != PutIfWhole(table, key, ds.value);
        assert FastTable(space, table, key, funcalls) != DirectTable(round, space, table, key, funcalls);
      }
    }
  }

  /** Operands that both read alike, as they do all that are tagged integer, come
      to the same on every attribute. */
  lemma ReadAlikeMeansSameEffects(round: Rounding, space: Space, funcalls: seq<Funcall>)
    requires CanUseRuntimeMutations(space, funcalls) && NumericTags(funcalls) && AllReadAlike(round, funcalls)
    requires MutationsOf(space, funcalls).Some?
    ensures DirectMutationsOf(round, space, funcalls).Some?
    ensures SameEffects(MutationsOf(space, funcalls).value, DirectMutationsOf(round, space, funcalls).value)
  {
    TranslationsAreTwins(round, space, funcalls);
  }

  // ---------------------------------------------------------------- a lone call

  lemma {:induction false} OnlyOneOn(ms: seq<Mutation>, j: nat, v: Value)
    requires j < |ms| && forall i :: 0 <= i < |ms| && i != j ==> ms[i].attribute != ms[j].attribute
    ensures Effect(ms, ms[j].attribute, v) == EffectOf(ms[j], ms[j].attribute, v)
    decreases |ms|
  {
    hide EffectOf;
    if j > 0 {
      OtherEffect(ms[0], ms[j].attribute, v);
      OnlyOneOn(ms[1..], j - 1, v);
    } else {
      NoneOn(ms[1..], ms[0].attribute, EffectOf(ms[0], ms[0].attribute, v));
    }
  }

  lemma OtherEffect(m: Mutation, name: Name, v: Value)
    requires m.attribute != name
    ensures EffectOf(m, name, v) == v
  {
  }

  lemma {:induction false} NoneOn(ms: seq<Mutation>, name: Name, v: Value)
    requires forall i :: 0 <= i < |ms| ==> ms[i].attribute != name
    ensures Effect(ms, name, v) == v
    decreases |ms|
  {
    if ms != [] { NoneOn(ms[1..], name, v); }
  }

  lemma LoneMutationDecides(ms: seq<Mutation>, ds: seq<Mutation>, j: nat, name: byte)
    requires Twins(ms, ds) && j < |ms| && ms[j].Numeric? && FastName(name) && OpOf(name) == Some(ms[j].op)
    requires forall i :: 0 <= i < |ms| && i != j ==> ms[i].attribute != ms[j].attribute
    ensures SameEffect(ms, ds, ms[j].attribute) <==> ms[j] == ds[j]
  {
    hide Effect, ApplyNumeric, IntegerFuncall;
    var attribute := ms[j].attribute;
    assert Twin(ms[j], ds[j]);
    forall i | 0 <= i < |ds| && i != j ensures ds[i].attribute != ds[j].attribute {
      assert Twin(ms[i], ds[i]);
    }
    forall c: i64
      ensures Effect(ms, attribute, Int(c)) == EffectOf(ms[j], attribute, Int(c))
      ensures Effect(ds, attribute, Int(c)) == EffectOf(ds[j], attribute, Int(c))
    {
      OnlyOneOn(ms, j, Int(c));
      OnlyOneOn(ds, j, Int(c));
    }
    if ms[j] != ds[j] {
      var c := Telling(name);
      FastArithmeticAgrees(name, c, ms[j].operand);
      FastArithmeticAgrees(name, c, ds[j].operand);
      TellsOperandsApart(name, ms[j].operand, ds[j].operand);
      assert Effect(ms, attribute, Int(c)) != Effect(ds, attribute, Int(c));
    }
  }

  lemma {:induction false} TranslatedAt(round: Rounding, space: Space, funcalls: seq<Funcall>, j: nat)
    requires j < |funcalls| && MutationsOf(space, funcalls).Some? && DirectMutationsOf(round, space, funcalls).Some?
    ensures |MutationsOf(space, funcalls).value| == |DirectMutationsOf(round, space, funcalls).value| == |funcalls|
    ensures MutationOf(space, funcalls[j]) == Some(MutationsOf(space, funcalls).value[j])
    ensures DirectMutationOf(round, space, funcalls[j]) == Some(DirectMutationsOf(round, space, funcalls).value[j])
  {
    hide MutationOf, DirectMutationOf;
    if j > 0 {
      TranslatedAt(round, space, funcalls[1..], j - 1);
    } else if |funcalls| > 1 {
      TranslatedAt(round, space, funcalls[1..], 0);
    }
  }

  /** If a call is the only one on its attribute, the two paths come to the same
      there exactly if they read its operand alike. */
  lemma LoneCallDecides(round: Rounding, space: Space, funcalls: seq<Funcall>, j: nat)
    requires CanUseRuntimeMutations(space, funcalls) && NumericTags(funcalls)
    requires j < |funcalls| && funcalls[j].name != FUNC_SET
    requires MutationsOf(space, funcalls).Some?
    requires var ms := MutationsOf(space, funcalls).value;
      forall i :: 0 <= i < |ms| && i != j ==> ms[i].attribute != ms[j].attribute
    ensures DirectMutationsOf(round, space, funcalls).Some?
    ensures var ms, ds := MutationsOf(space, funcalls).value, DirectMutationsOf(round, space, funcalls).value;
      SameEffect(ms, ds, ms[j].attribute) <==> ReadAlike(round, funcalls[j])
  {
    hide MutationsOf, DirectMutationsOf, Twins, SameEffect, DirectOperand, DecodeI64, OperandValue;
    TranslationsAreTwins(round, space, funcalls);
    TranslatedAt(round, space, funcalls, j);
    var f := funcalls[j];
    assert FastFuncall(space, f);
    LoneMutationDecides(MutationsOf(space, funcalls).value, DirectMutationsOf(round, space, funcalls).value, j, f.name);
  }
}
