/** What an acknowledged put leaves in the key attribute and in all others
    (crates/server, `materialize_key_mutation`). */
module KeyAttribute {
  import opened Base
  import opened Cluster
  import opened DataModel
  import opened Engine
  import opened Node
  import opened Replication
  import opened Routing

  predicate Touches(mutations: seq<Mutation>, name: Name) { exists m :: m in mutations && m.attribute == name }

  predicate Assigned(mutations: seq<Mutation>, name: Name) {
    exists m :: m in mutations && m.SetAttribute? && m.attribute == name
  }

  /** A list works around an attribute that it does not touch. */
  lemma {:induction false} UntouchedStays(attributes: Attributes, mutations: seq<Mutation>, name: Name, value: Value)
    requires !Touches(mutations, name)
    ensures var plain := ApplyMutations(attributes, mutations);
      ApplyMutations(attributes[name := value], mutations) == Applied(plain.attributes[name := value], plain.failure)
    decreases |mutations|
  {
    hide ApplyNumeric, InsertEntry, LookupEntry;
    if mutations != [] {
      var m := mutations[0];
      assert m in mutations && m.attribute != name;
      OneAround(attributes, m, name, value);
      assert forall x :: x in mutations[1..] ==> x in mutations;
      hide ApplyMutation;
      if ApplyMutation(attributes, m).Ok? { UntouchedStays(ApplyMutation(attributes, m).value, mutations[1..], name, value); }
    }
  }

  lemma OneAround(attributes: Attributes, m: Mutation, name: Name, value: Value)
    requires m.attribute != name
    ensures ApplyMutation(attributes[name := value], m)
      == match ApplyMutation(attributes, m)
         case Ok(next) => Ok(next[name := value])
         case Err(e) => Err(e)
  {
    hide ApplyNumeric, InsertEntry, LookupEntry;
    var with := attributes[name := value];
    assert AttributeOr(with, m.attribute, Int(0)) == AttributeOr(attributes, m.attribute, Int(0));
    assert AttributeOr(with, m.attribute, Map([])) == AttributeOr(attributes, m.attribute, Map([]));
    match ApplyMutation(attributes, m)
    case Ok(next) => assert ApplyMutation(with, m).value == next[name := value];
    case Err(_) =>
  }

  /** Arithmetic and map operations are refused by a byte string. */
  lemma {:induction false} BytesRefuse(attributes: Attributes, mutations: seq<Mutation>, name: Name)
    requires name in attributes && attributes[name].Blob?
    requires Touches(mutations, name) && !Assigned(mutations, name)
    ensures ApplyMutations(attributes, mutations).failure.Some?
    decreases |mutations|
  {
    hide ApplyNumeric, InsertEntry, LookupEntry;
    var m := mutations[0];
    assert m in mutations;
    if m.attribute != name {
      var next := ApplyMutation(attributes, m);
      assert next.Ok? ==> name in next.value && next.value[name] == attributes[name];
      assert forall x :: x in mutations[1..] ==> x in mutations;
      var x :| x in mutations && x.attribute == name;
      assert x in mutations[1..];
      hide ApplyMutation;
      if next.Ok? { BytesRefuse(next.value, mutations[1..], name); }
    }
  }

  /** The attributes after a put: what the client's own list makes of the old
      ones, with the key as a byte string in the key attribute unless the list
      assigns that itself. */
  ghost predicate StoredBy(old_: Option<Record>, new_: Option<Record>, keyAttribute: Name, key: Bytes, mutations: seq<Mutation>) {
    var own := ApplyMutations((if old_.Some? then old_.value else NewRecord(key)).attributes, mutations);
    && own.failure.None? && new_.Some?
    && new_.value.attributes == if Assigned(mutations, keyAttribute) then own.attributes else own.attributes[keyAttribute := Blob(key)]
  }

  lemma PutStores(old_: Option<Record>, space: Space, key: Bytes, mutations: seq<Mutation>)
    requires WriteFailure(old_, key, PutWrite(Materialize(space, key, mutations))).None?
    ensures StoredBy(old_, AfterWrite(old_, key, PutWrite(Materialize(space, key, mutations))), space.keyAttribute, key, mutations)
  {
    hide ApplyMutation;
    if !Assigned(mutations, space.keyAttribute) {
      var attributes := (if old_.Some? then old_.value else NewRecord(key)).attributes;
      var name := space.keyAttribute;
      var set_ := SetAttribute(name, Blob(key));
      assert Materialize(space, key, mutations) == [set_] + mutations;
      SetFirst(attributes, name, Blob(key), mutations);
      if Touches(mutations, name) {
        BytesRefuse(attributes[name := Blob(key)], mutations, name);
      } else {
        UntouchedStays(attributes, mutations, name, Blob(key));
      }
    }
  }

  lemma SetFirst(attributes: Attributes, name: Name, value: Value, mutations: seq<Mutation>)
    ensures ApplyMutations(attributes, [SetAttribute(name, value)] + mutations) == ApplyMutations(attributes[name := value], mutations)
  {
    assert ([SetAttribute(name, value)] + mutations)[1..] == mutations;
  }

  /** A put or conditional put that was acknowledged has a primary at all of whose
      replicas the record now is what the client asked for, key attribute included. */
  ghost predicate StoredEverywhere(before: Nodes, after: Nodes, p: NodeId, hash: Bytes -> u64, space: SpaceName, key: Bytes,
                                   mutations: seq<Mutation>)
  {
    && RoutesToItself(before, p, space, key, hash)
    && var replicas := LocateKey(before[p], space, key, hash).value.replicas;
       && p in replicas
       && forall n :: n in replicas ==>
            && n in before && n in after
            && StoredBy(RecordAt(before[n], space, key), RecordAt(after[n], space, key),
                        before[p].catalog[space].keyAttribute, key, mutations)
  }

  lemma AcknowledgedPutStores(before: Nodes, after: Nodes, hash: Bytes -> u64, space: SpaceName, key: Bytes, op: ClientWrite)
    requires DistinctLayouts(before) && ClientStep(before, after, hash, space, key, op, Ok(Unit)) && !op.ClientDelete?
    ensures exists p: NodeId :: StoredEverywhere(before, after, p, hash, space, key, op.mutations)
  {
    hide Locate, Confirmed, RightAnswer, MayWrite, StoredBy, ApplyMutations, Materialize;
    var p: NodeId, unreached: set<NodeId> :| CarriedOut(before, after, p, unreached, hash, space, key, op, Ok(Unit));
    var definition, replicas := before[p].catalog[space], LocateKey(before[p], space, key, hash).value.replicas;
    var write := PutWrite(Materialize(definition, key, op.mutations));
    LocateWellFormed(before[p].layout, definition.options, hash(key));
    UnitReachesEveryReplica(before, after, p, replicas, space, key, write);
    forall n | n in replicas
      ensures n in before && n in after
      ensures StoredBy(RecordAt(before[n], space, key), RecordAt(after[n], space, key), definition.keyAttribute, key, op.mutations)
    {
      WriteEffect(before[n], space, key, write);
      PutStores(RecordAt(before[n], space, key), definition, key, op.mutations);
    }
    assert StoredEverywhere(before, after, p, hash, space, key, op.mutations);
  }
}
