# A verified model of the HyperDex clone

HyperDex is a distributed key-value store: spaces of typed records, keys hashed to regions, regions
served by replica sets, and a wire protocol for clients written against the original C++ system. This
project models the parts of the Rust clone in which something can go wrong between two pieces of code
that have to agree, and proves what they promise each other.

* **Records** (`DataModel`, `ValueOrder`, `Engine`, `RecordMutations`, `RecordEquality`). Values are
  totally ordered up to equality, through all nesting; checks mean that order, and a mutation does
  to its own attribute what its arithmetic, assignment or map entry says.
* **Replication** (`Node`, `Cluster`, `KeyAttribute`, `Replication`, `DeleteGroup`, `Reads`). A
  cluster is a map from node to store; every message may be lost. The primary asks its peers, writes
  locally, forwards, and undoes its own write when a forward fails. While its daemons share one
  catalog, the cluster implements one sequential store, answers included, on every run of given
  operations exactly if none of them can meet a record on which its primary would refuse the list
  half-way: that is not undone. The replicas stay equal exactly if every operation was answered,
  changed nothing, or had no second replica running. An acknowledged put is on every replica, key
  attribute included. Delete-group is all or nothing; with no message lost it succeeds exactly when
  the members that have the space hold the same matching records and their number divides evenly.
* **Routing** (`Routing`, `Regions`, `PublishedRouting`, `KeySubspace`, `AdoptedRouting`,
  `CutDimensions`, `Placement`). Daemons and clients compute a key's region in two ways. What a
  client reads from the bytes its coordinator encoded and the routing of any daemon that adopted the
  coordinator's view agree for every cluster and every key exactly when the partition count is a
  power of two. Regions cut hash space without gap or overlap. Rendezvous and token-ring placement
  choose the preferred nodes and are consistent: losing a node disturbs no one else's place.
* **Codecs** (`Wire`, `Lists`, `Utf8`, `Protocol`, `BusyBee`, `ContainerValues`, `WireLayout`,
  `PackedSpace`, `PackedDecoding`, `PackedEncoding`, `SpaceReader`). Requests, frames, container
  values and packed schemas are decoded to what was encoded, or to nothing, with the exact condition
  for each, and every field stands where the format puts it. The packed schema is written by one
  crate and read by another; a schema with a two-attribute subspace never gets across, unless it has
  one, four or six partitions, because the cut into regions overshoots.
* **Schema language** (`Text`, `Schema`). A printed schema is parsed back exactly when its names
  keep to their lines; kinds may be nested to any depth.
* **Atomic requests** (`AtomicPath`, `AtomicEffects`, `IntegerArithmetic`). The shortcut that turns
  function calls into engine mutations and the path that applies them to a copy leave the same
  table, for every table and key, exactly when each arithmetic call after the first is on an
  attribute that an earlier call left an integer, and the operands, which the two may read
  differently, come to the same on each attribute.
* **Configuration** (`ConfigSync`, `Numbering`, `AdminSession`, `AdminReplies`). A daemon that
  adopts its coordinator's view routes as the coordinator does and keeps the records of unchanged
  spaces. On an admin connection the waits asked for are those answered, pending or overwritten,
  whatever nonces the peer uses; none is lost exactly when none is overwritten, none is answered
  early, and each answer carries what the runtime showed when it was sent.

`Base`, `Arithmetic`, `KeyOrder` and `Sorting` hold what these share. Code that updates
state in the original is a class or a loop here, proved against a function; the theorems are about the
functions.

Where the model shows the code to fall short of what one would expect, the code is kept and it is
proved exactly when it does what one would expect:

* `Engine.FailedPutExact`: when a put that fails leaves the table as it was;
* `Replication.EveryRunImplementsExactly` (with `HalfAppliedPut`, one node and one put) and
  `RunRefinesExactly`: on which runs the cluster is one sequential store;
* `Replication.StepAgreementExact`, `EveryOutcomeAgreesExactly` and `RunsKeepAgreement`: which operations
  leave the replicas equal; `FailedReplicationExact`, `EveryStopIsHarmlessExactly`, `LocalFailureExact`: the same for one write that fails;
* `DeleteGroup.ExecuteDeleteGroup`: when a deletion that has to be undone cannot be;
* `KeySubspace.EncodedRoutingAgreesExactly` and `AdoptedRouting.AdoptedRoutingAgreesExactly`: which partition counts route alike (with
  `PublishedRouting.PublishedRoutingDisagrees`, three servers and three partitions);
* `PackedSpace.PackedSpaceRoundTrip` (with `PairSubspacesAreRefused`), `ContainerValues.ValueRoundTrip`,
  `Schema.SchemaRoundTrip`: what comes back as it was;
* `AtomicEffects.PathsAgreeExactly` (with `AtomicPath.FailedRequestsDiffer`, two additions): which requests leave the
  same table by both paths;
* `AdminSession.NothingLostExactly` (with `ReusedNonceLosesAWait`, three frames): which connections lose
  no wait.

## Model

| member | source | states |
|---|---|---|
| `Engine.ApplyMutationsInPlace` | crates/engine-memory/src/lib.rs:131-188 | the loop over a record held by reference leaves what the mutations before the first refused one make of it, and returns that refusal |
| `Engine.FailureKeepsPrefix` | crates/engine-memory/src/lib.rs:131-188 | a list that fails has applied every mutation before the failing one and nothing of that one |
| `Engine.FailedPutExact` | crates/engine-memory/src/lib.rs:21-31 | a put is not atomic: one that fails leaves the table as it was if and only if the record was there and the mutations before the failing one come to nothing |
| `Engine.BitwiseInRange` | crates/engine-memory/src/lib.rs:190-201 | and, or and exclusive or, whose meaning `IntegerArithmetic.BitwiseBits` gives, stay within the width of their operands |
| `IntegerArithmetic.BitwiseBits` | crates/engine-memory/src/lib.rs:190-201 | every bit of the result is the conjunction, disjunction or exclusive or of that bit of the operands, negative numbers included |
| `IntegerArithmetic.EngineDivision` | crates/engine-memory/src/lib.rs:190-201 | the old value is the quotient times the operand plus the remainder, which is smaller than the operand and has the old value's sign |
| `RecordMutations.LookupAfterInsert` | crates/engine-memory/src/lib.rs:131-188 | in a map value, an insertion puts the new value under its key and leaves what is under every other key |
| `RecordMutations.MutationEffect` | crates/engine-memory/src/lib.rs:131-188 | a mutation changes its own attribute only, to the assigned value, the result of the arithmetic on the old number (zero if missing), or the old map with one entry put; it is refused exactly if the old value is of the wrong kind or the arithmetic has no result |
| `Engine.MemoryEngine.Put` | crates/engine-memory/src/lib.rs:21-31 | an unknown space is refused; otherwise the record is created if need be and mutated, even when the list fails, and no other record changes |
| `Engine.MemoryEngine.ConditionalPut` | crates/engine-memory/src/lib.rs:52-79 | a failed condition changes nothing; otherwise it is a put |
| `Engine.MemoryEngine.Delete` | crates/engine-memory/src/lib.rs:40-50 | removes the record and says whether there was one |
| `Engine.MemoryEngine.Search` | crates/engine-memory/src/lib.rs:81-91 | returns exactly the matching records, each once, in key order |
| `Engine.MemoryEngine.DeleteMatching` | crates/engine-memory/src/lib.rs:97-114 | removes exactly the matching records and returns their number |
| `DataModel.CompareAntisymmetric` | crates/data-model/src/lib.rs:12-24 | in the derived order of values, swapping the operands swaps the outcome, through all nested containers |
| `RecordMutations.CompareTransitive` | crates/data-model/src/lib.rs:12-24 | the derived order is transitive, through all nested containers |
| `ValueOrder.BytesInOrder` | crates/data-model/src/lib.rs:12-24 | a byte string is below another exactly if it is a proper prefix of it or smaller at the first byte that differs |
| `ValueOrder.ValuesInOrder` | crates/data-model/src/lib.rs:12-24 | lists and sets compare as words do, element by element |
| `ValueOrder.EntriesInOrder` | crates/data-model/src/lib.rs:12-24 | maps compare entry by entry, by key and then by value |
| `ValueOrder.DoublesInOrder` | crates/data-model/src/lib.rs:17-17 | finite doubles compare as the numbers they denote (section 3.4 of IEEE 754) |
| `ValueOrder.DoublesBeyond` | crates/data-model/src/lib.rs:17-17 | the infinities are the ends of the finite doubles; every NaN is equal to every other and above the rest |
| `ValueOrder.VariantsInOrder` | crates/data-model/src/lib.rs:12-24 | values of different variants compare by the order of the variants |
| `ValueOrder.IntegerChecks` | crates/engine-memory/src/lib.rs:211-219 | on integers the five predicates are equality and the four inequalities |
| `ValueOrder.BytesChecks` | crates/engine-memory/src/lib.rs:211-219 | on byte strings and text, less-than is the order of bytes and equality is equality |
| `ValueOrder.ChecksAreOneOrder` | crates/engine-memory/src/lib.rs:211-219 | for any two values exactly one of less, equal and greater holds, and the other two predicates are their disjunctions |
| `ValueOrder.ChecksAreConjunction` | crates/engine-memory/src/lib.rs:201-209 | several checks are met exactly if each is, and no check lets every record pass |
| `ValueOrder.IntegerSearch` | crates/engine-memory/src/lib.rs:81-114 | a search with one integer check lists exactly the records whose attribute is there and holds, and a deletion with it leaves the others |
| `RecordEquality.CompareCongruent` | crates/data-model/src/lib.rs:12-24 | values that compare equal (both zeros do, and all NaNs) compare alike with every third value, so equality is an equivalence |
| `RecordEquality.MutationsCongruent` | crates/engine-memory/src/lib.rs:131-188 | records that the source takes for equal stay equal under every mutation list and fail alike |
| `Node.WriteEffect` | crates/data-plane/src/lib.rs:29-45 | a write touches its own record only, is refused without effect by a node that lacks the space or cannot route, and depends on that record alone |
| `Cluster.Cluster.Forward` | crates/server/src/lib.rs:367-388 | a message is delivered and handled by its receiver, or counted as lost with no effect |
| `Cluster.Cluster.ConfirmLocalPrimary` | crates/server/src/lib.rs:650-709 | success means that no peer that was reached refused the claim and, if one was not reached, another accepted; with no loss and no refusal it succeeds |
| `Cluster.Cluster.GetWithFallback` | crates/server/src/lib.rs:420-469 | a read returns the record of a replica, the primary's own on the primary, and all replicas that answered hold an equal one; with no loss every replica that knows the space answers, and replicas that agree are read |
| `Cluster.Cluster.ReplicateTo` | crates/server/src/lib.rs:471-503 | replicas are written in order and replication stops at the first that does not take the write; with no loss it stops only at a refusal |
| `Cluster.RestoreMutations` | crates/server/src/lib.rs:529-535 | the mutations built from a record rebuild exactly that record from nothing |
| `Cluster.Cluster.RestoreLocalRecord` | crates/server/src/lib.rs:505-527 | the primary holds the old record, or none, again; nothing else on it or elsewhere changes |
| `Cluster.Cluster.ReplicateOrRestore` | crates/server/src/lib.rs:736-748 | after a failed replication the whole primary is as before the write; with no loss and no refusal the write is acknowledged |
| `Cluster.Cluster.ApplyPrimaryPut` | crates/server/src/lib.rs:727-749 | an acknowledged put was confirmed by the peers and applied on every replica; a failed one left the cluster unchanged, or the refused list on the primary, or the write on a prefix of the secondaries; with nothing in its way it is acknowledged |
| `Cluster.Cluster.ApplyPrimaryConditionalPut` | crates/server/src/lib.rs:958-986 | the same; it changes nothing unless the condition holds on the primary, whatever the reply, and it is acknowledged exactly if it holds on the primary, to whose record those of all replicas that answered are equal |
| `KeyAttribute.AcknowledgedPutStores` | crates/server/src/lib.rs:1007-1033 | after an acknowledged put or conditional put the record on every replica is what the client's own list makes of the old one, with the key in the key attribute unless the list assigns that itself |
| `Cluster.Cluster.ApplyPrimaryDelete` | crates/server/src/lib.rs:988-1005 | the same for a delete |
| `Cluster.Cluster.HandleClientWrite` | crates/server/src/lib.rs:4643-4778 | whatever daemon receives it, a write is refused without effect or carried out by a node that is primary by its own and its peers' views, a conditional one only where its condition holds; with nothing in its way it is answered |
| `Cluster.ClientStepKeeps` | crates/server/src/lib.rs:727-749 | no write, failed or not, files a record under a foreign key or touches a node's layout |
| `Replication.PrimaryExclusivity` | crates/server/src/lib.rs:650-709 | two nodes that know and reach each other and route the key to themselves cannot both be confirmed, however their views differ |
| `Replication.CommonViewJudges` | crates/server/src/lib.rs:650-709 | where nodes share a view, a peer accepts the claim of the node to which the view sends the key, and any other only if it knows fewer nodes than the claimant |
| `Replication.RightfulPrimaryIsWelcome` | crates/server/src/lib.rs:650-709 | there the rightful primary, its members running, routes the key to itself and is confirmed |
| `Replication.UnitReachesEveryReplica` | crates/server/src/lib.rs:471-503 | an acknowledged write is on every replica, each applied to its own record; agreeing replicas still agree, and after a delete all do |
| `Replication.ConditionalPutHeals` | crates/server/src/lib.rs:958-986 | an acknowledged conditional put that every replica answered leaves them equal, whatever was known of them before |
| `Replication.FailedReplicationExact` | crates/server/src/lib.rs:471-527 | after a failed replication the primary is as before, and the replicas agree if and only if no secondary had taken the write or the write would not change the record |
| `Replication.EveryStopIsHarmlessExactly` | crates/server/src/lib.rs:471-527 | known before the write: however its replication stops the replicas agree, if and only if there is at most one secondary or the write would not change the record |
| `Replication.LocalFailureExact` | crates/server/src/lib.rs:727-749 | a list that the primary refuses part-way leaves the replicas equal if and only if what it had applied changed nothing or no other replica is running |
| `Replication.StepAgreementExact` | crates/server/src/lib.rs:727-1005 | from equal replicas, any operation leaves all replicas of all keys equal if and only if it was answered, changed nothing, or no second replica of its key is running |
| `Replication.EveryOutcomeAgreesExactly` | crates/server/src/lib.rs:727-1005 | known before the operation: every outcome leaves all replicas equal, if and only if the write would change nothing, or no second replica is running, or the primary takes the list and either there is at most one secondary or the first is not there to take it |
| `Replication.SmallGroupsAreGentle` | crates/server/src/lib.rs:727-749 | with one secondary at most that is so for every operation, failed or not, whose list the primary does not refuse half-applied |
| `Replication.RunsKeepAgreement` | crates/server/src/lib.rs:727-1005 | over every run of puts, conditional puts and deletes with any messages lost, the replicas are equal after every operation if and only if every operation was such |
| `Replication.StepRefinesExactly` | crates/server/src/lib.rs:727-1005 | for any number of replicas, a step changes the primaries' records exactly as its reply says, unless the primary refused the list after it changed the record |
| `Replication.NeverHalfAppliedExactly` | crates/server/src/lib.rs:727-986 | known before the operation: no outcome is half applied, if and only if the list, should it get to the primary's store, takes effect there or is refused without having changed the record |
| `Replication.RunRefinesExactly` | crates/server/src/lib.rs:727-1005 | over every run the primaries' records are after each operation what the acknowledged writes alone make of them, if and only if no operation was half applied |
| `Replication.EveryRunImplementsExactly` | crates/server/src/lib.rs:727-1005 | known before the first operation: on every run of given operations, whatever is lost, the cluster is in the sequential store's state and gave its answers, if and only if no run reaches a state in which the next list would be refused half-way |
| `Replication.AssignmentsAreImplemented` | crates/server/src/lib.rs:727-1005 | operations that only assign and delete are implemented on every run |
| `Replication.HalfAppliedPut` | crates/engine-memory/src/lib.rs:21-31 | on one node, a failed put whose first mutation stays |
| `Replication.RunReplies` | crates/server/src/lib.rs:727-1005 | an answer before which nothing was half applied is the one a sequential store would give: conditions are judged on what the acknowledged writes made of the record |
| `Replication.ReadSeesSequentialStore` | crates/server/src/lib.rs:420-469 | after a run that kept the replicas equal, a read that any replica answers returns the primary's record, which is the sequential store's if nothing was half applied |
| `DeleteGroup.TakeSnapshots` | crates/server/src/lib.rs:751-796 | one snapshot of the matching records for each member that has the space, in order; every other member said that it lacks the space; with every member running and no loss it succeeds |
| `DeleteGroup.SnapshotsAgree` | crates/server/src/lib.rs:600-620 | true exactly if all snapshots equal the first in the source's sense |
| `DeleteGroup.Rollback` | crates/server/src/lib.rs:579-590 | undoing the deletions in reverse order gives the cluster back as it was; without loss it succeeds exactly if every node it restores records on can route them |
| `DeleteGroup.ExecuteDeleteGroup` | crates/server/src/lib.rs:751-866 | an error other than a failed rollback leaves every store as it was; success removed exactly the matching records from every member with the space, all of which held equal ones, and the count times the replica factor is the number of deletions; without loss it succeeds if and only if these members agree and the count divides, and its rollback fails if and only if they agree, the count does not divide and one of them has no layout |
| `Reads.MergeAnswer` | crates/server/src/lib.rs:923-938 | adds an answer's new records to those of earlier answers, or finds one that is not equal to an earlier one |
| `Reads.ExecuteDistributedSearch` | crates/server/src/lib.rs:868-952 | returns the union of the answers in key order, each record once; every member answered, lacks the space, or was lost, at most one per lost message; divergence is reported only for a real conflict |
| `Reads.ExecuteDistributedCount` | crates/server/src/lib.rs:954-956 | the number of records that search would return |
| `Reads.ConflictsAreNotMerged` | crates/server/src/lib.rs:923-938 | two answers with unequal records under one key have no merge, so both operations fail |
| `Reads.DegradedSearchIsLogical` | crates/server/src/lib.rs:868-956 | with nodes down, if one holder of each key answers, search returns exactly the logical store's matches in key order and count their number |
| `Routing.LegacyReplicaSets` | crates/server/src/lib.rs:1762-1799 | the nested loops collect the rotations of a small server list, or all strided sets of a larger one, in order |
| `Routing.RotatedSetsInOrder` | crates/server/src/lib.rs:1767-1780 | with no more servers than replicas, set k starts with server k and goes around the list |
| `Routing.StridedSetsInOrder` | crates/server/src/lib.rs:1781-1799 | with more, the sets are listed by starting position and then by stride, servers at equal distances, as many strides as partitions and the list allow, and there are no others |
| `Routing.ReplicaSetsWellFormed` | crates/server/src/lib.rs:1762-1799 | for distinct servers there is a set to choose, and every set has min(servers, replicas) distinct registered servers |
| `Routing.RegionInRange` | crates/server/src/lib.rs:1279-1282 | every 64-bit hash falls into one of the partitions |
| `Routing.LocateWellFormed` | crates/server/src/lib.rs:1248-1277 | a key is placed if and only if there is a server and a partition, and then on min(servers, tolerance + 1) distinct registered servers, the first of them primary |
| `Regions.PartitionPoints` | crates/server/src/lib.rs:1848-1863 | the two loops give the bounds of every interval of the cut, a single one included |
| `Regions.IntervalIsWrapped` | crates/server/src/lib.rs:1849-1849 | the width of an interval is the source's 64-bit product, which for a single interval wraps around to zero in a release build |
| `Regions.PointsPartition` | crates/server/src/lib.rs:1848-1863 | each 64-bit hash lies in exactly one interval |
| `Regions.GenerateRegions` | crates/server/src/lib.rs:1865-1907 | the recursion over shared coordinate buffers lists every box, the last dimension varying fastest, and leaves the coordinates of outer dimensions alone |
| `Regions.RegionsPartitionHashSpace` | crates/server/src/lib.rs:1865-1907 | the regions number the product of the dimensions and every point of hash space lies in exactly one |
| `Regions.BoxesOfTwo` | crates/server/src/lib.rs:1865-1907 | in two dimensions, region i times n plus j is the product of interval i of the first and interval j of the second |
| `PublishedRouting.PublishedIndexClose` | crates/server/src/lib.rs:1279-1282 | the published region of a hash is the daemon's region or the next one, up to 2^31 partitions |
| `PublishedRouting.PublishedIndexExact` | crates/server/src/lib.rs:1848-1863 | published and daemon's regions coincide on all hashes if and only if the partition count divides 2^63 |
| `PublishedRouting.DividesIffPowerOfTwo` | crates/server/src/lib.rs:1849-1849 | that is the case exactly for powers of two |
| `PublishedRouting.PublishedRoutingAgrees` | crates/server/src/lib.rs:1702-1760 | with a power-of-two count every published region that holds a hash carries the very replica list the daemons use |
| `PublishedRouting.RoutingAgreesExactly` | crates/server/src/lib.rs:1248-1282 | published and daemon routing agree for every cluster, tolerance and key if and only if the partition count is a power of two |
| `KeySubspace.KeySubspaceOnWire` | crates/server/src/lib.rs:1702-1760 | in the bytes of a space, the key subspace is read back field by field: its id and index, and for region i its id, the lower and the upper bound of interval i, and each server of its replica set with the id of that replica, the ids counting on from the space's own |
| `KeySubspace.EncodedRegionIsPublished` | crates/server/src/lib.rs:1702-1760 | region by region, what a client reads from the bytes encoded for a space has the bounds and the servers, in their order, of the published region |
| `KeySubspace.EncodedRoutingAgreesExactly` | crates/server/src/lib.rs:1628-1760 | so the bytes encoded for any space and cluster route every key as the daemons do if and only if the partition count is a power of two |
| `AdoptedRouting.EncodedServersAreTheLayout` | crates/server/src/lib.rs:1504-1531 | the server list encoded for clients is the node list by which the daemons route |
| `AdoptedRouting.AdoptedRoutingAgreesExactly` | crates/server/src/lib.rs:1171-1208 | for every consistent coordinator and every daemon that adopts its view, a client that reads the bytes the coordinator encoded and the daemon send each key to the same replicas, if and only if the partition count is a power of two |
| `PublishedRouting.PublishedRoutingDisagrees` | crates/server/src/lib.rs:1248-1282 | with three servers and three partitions one hash is published on server 2 and served by server 1 |
| `CutDimensions.PartitionDimensions` | crates/server/src/lib.rs:1811-1823 | the loop raises a prefix of the equal dimensions by one |
| `CutDimensions.TwoSizes` | crates/server/src/lib.rs:1825-1828 | every dimension equals the first or the last, so cut points for these two suffice; one attribute alone gets every partition |
| `CutDimensions.PartitionRegions` | crates/server/src/lib.rs:1801-1846 | computes all boxes of the cut |
| `CutDimensions.TwoAttributeCut` | crates/server/src/lib.rs:1811-1823 | a two-attribute subspace has as many regions as partitions for one, four and six partitions only |
| `CutDimensions.RegionsOfCut` | crates/server/src/lib.rs:1811-1823 | for any number of attributes the regions number the product of as many factors one above the root as dimensions were raised, and the root for the others |
| `CutDimensions.ThreeAttributeCut` | crates/server/src/lib.rs:1811-1823 | whether three attributes and sixty-four partitions come out as sixty-four regions or as a hundred and twenty-five hangs on which side of four the floating-point cube root falls |
| `Placement.RendezvousWellChosen` | crates/placement-core/src/lib.rs:57-66 | the replicas are distinct nodes of the layout, min(max(replicas, 1), nodes) of them, the first primary |
| `Placement.RendezvousChoosesBest` | crates/placement-core/src/lib.rs:57-66 | the replicas are ordered by score, the smaller id first where scores are equal, and every node left out comes after all of them |
| `Placement.RendezvousIgnoresOrder` | crates/placement-core/src/lib.rs:57-66 | the decision does not depend on the order of the node list |
| `Placement.RendezvousConsistent` | crates/placement-core/src/lib.rs:57-126 | removing a node outside the list leaves the list; removing a member keeps the others in order and adds one node at most |
| `Placement.BuildRing` | crates/placement-core/src/lib.rs:143-164 | pushing all tokens and sorting in place gives the ring |
| `Placement.WalkRing` | crates/placement-core/src/lib.rs:73-102 | the walk collects the first owners, without repetition, from the starting token around the ring |
| `Placement.LocateOnRing` | crates/placement-core/src/lib.rs:73-126 | the token-ring decision |
| `Placement.HyperSpaceWellChosen` | crates/placement-core/src/lib.rs:73-126 | as for rendezvous |
| `Placement.HyperSpacePrimary` | crates/placement-core/src/lib.rs:73-169 | the primary owns the first token met going up from the key and around the ring, where every node has its number of tokens at their hashes |
| `Placement.HyperSpaceIgnoresOrder` | crates/placement-core/src/lib.rs:73-126 | as for rendezvous |
| `Placement.HyperSpaceConsistent` | crates/placement-core/src/lib.rs:73-169 | as for rendezvous, for every hash of tokens and keys |
| `Wire.EncodeVarint` | crates/legacy-protocol/src/lib.rs:1216-1230 | the loop writes unsigned LEB128 (section 7.6 of the DWARF 5 standard) |
| `Wire.DecodeVarintLoop` | crates/legacy-protocol/src/lib.rs:1232-1246 | the loop reads ten groups at most and drops what does not fit 64 bits |
| `Wire.VarintRoundTrip` | crates/legacy-protocol/src/lib.rs:1216-1246 | every 64-bit number is read back, whatever follows it |
| `Wire.VarintAccepts` | crates/legacy-protocol/src/lib.rs:1232-1246 | bytes start with a varint exactly if one of the first ten has no high bit |
| `Wire.SliceRoundTrip` | crates/legacy-protocol/src/lib.rs:889-905 | every byte string is read back, whatever follows it |
| `WireLayout.SliceOnWire` | crates/legacy-protocol/src/lib.rs:889-905 | the length of a byte string, then its bytes |
| `Wire.BeBytes` | crates/server/src/lib.rs:1974-1984 | the byte with i bytes after it holds the 256s of order i |
| `Wire.LeBytes` | crates/server/src/lib.rs:3942-3952 | little-endian numbers the other way round |
| `Wire.Leb128Bytes` | crates/legacy-protocol/src/lib.rs:1216-1230 | byte i of a varint holds the 128s of order i, its high bit set unless it is the last, and no byte is superfluous |
| `Lists.EncodeListLoop` | crates/legacy-protocol/src/lib.rs:1091-1100 | the output buffer holds the count and then the items |
| `Lists.DecodeListLoop` | crates/legacy-protocol/src/lib.rs:1102-1134 | the cursor reads the items one after another within its input |
| `Lists.ListRoundTrip` | crates/legacy-protocol/src/lib.rs:1248-1258 | a counted list is read back; the bound on counts never refuses a real encoding |
| `Lists.JoinedConcat` | crates/legacy-protocol/src/lib.rs:1091-1100 | the items of a list stand in their order |
| `Protocol.CheckRoundTrip` | crates/legacy-protocol/src/lib.rs:1091-1134 | an attribute check is read back, whatever follows it |
| `Protocol.FuncallRoundTrip` | crates/legacy-protocol/src/lib.rs:1136-1190 | a function call is read back, whatever follows it |
| `Protocol.CountExact` | crates/legacy-protocol/src/lib.rs:919-931 | a count request decodes to itself, and with anything after it to nothing |
| `Protocol.AtomicExact` | crates/legacy-protocol/src/lib.rs:933-975 | the same for an atomic request with its three flags |
| `Protocol.SearchStartExact` | crates/legacy-protocol/src/lib.rs:977-996 | the same for a search request |
| `Protocol.SearchItemExact` | crates/legacy-protocol/src/lib.rs:1063-1078 | the same for a search result |
| `Protocol.GetResponseExact` | crates/legacy-protocol/src/lib.rs:1031-1061 | the same for a get response, less the values of an unsuccessful one |
| `WireLayout.CheckOnWire` | crates/legacy-protocol/src/lib.rs:1091-1100 | attribute, value, datatype and predicate of a check, each where it stands on the wire |
| `WireLayout.FuncallOnWire` | crates/legacy-protocol/src/lib.rs:1136-1148 | the six fields of a function call |
| `WireLayout.AtomicOnWire` | crates/legacy-protocol/src/lib.rs:933-975 | key, flag bits, checks and calls of an atomic request |
| `WireLayout.RequestsOnWire` | crates/legacy-protocol/src/lib.rs:977-1078 | the fields of a search request, a search result and a get response |
| `BusyBee.DecodeStreamLoop` | crates/hyperdex-admin-protocol/src/lib.rs:342-370 | the loop splits a stream into frames; every turn takes four bytes at least |
| `BusyBee.EncodeStreamLoop` | crates/hyperdex-admin-protocol/src/lib.rs:372-380 | the loop joins encoded frames and fails with the first that cannot be sent |
| `BusyBee.FrameRoundTrip` | crates/hyperdex-admin-protocol/src/lib.rs:289-340 | a frame that can be sent is received as it is, or refused exactly if it is extended or longer than 8 MiB |
| `WireLayout.FrameOnWire` | crates/hyperdex-admin-protocol/src/lib.rs:289-340 | a header whose low 24 bits are the size of the whole frame and whose high ones are the flags, then the payload |
| `WireLayout.FrameLimits` | crates/hyperdex-admin-protocol/src/lib.rs:289-340 | senders put frames under 16 MiB on the wire, receivers take them up to 8 MiB, and bit 30 is the extended flag |
| `BusyBee.StreamRoundTrip` | crates/hyperdex-admin-protocol/src/lib.rs:342-380 | a stream gives back its frames if the receiver takes them all, and otherwise nothing |
| `BusyBee.StreamCanonical` | crates/hyperdex-admin-protocol/src/lib.rs:342-380 | a stream that decodes is the encoding of its frames byte for byte |
| `BusyBee.StreamAppend` | crates/hyperdex-admin-protocol/src/lib.rs:342-370 | a stream may be cut between frames and decoded in parts |
| `ContainerValues.EncodeElementsLoop` | crates/server/src/lib.rs:3953-3972 | list and set elements end to end |
| `ContainerValues.EncodeEntriesLoop` | crates/server/src/lib.rs:3973-3987 | map entries end to end |
| `ContainerValues.DecodeListLoop` | crates/server/src/lib.rs:4005-4014 | reads elements to the end of the input; terminates on every input |
| `ContainerValues.DecodeSetLoop` | crates/server/src/lib.rs:4015-4024 | the same into an ordered set |
| `ContainerValues.DecodeMapLoop` | crates/server/src/lib.rs:4025-4037 | the same into an ordered map, the last value of a key winning |
| `ContainerValues.ValueRoundTrip` | crates/server/src/lib.rs:3942-4042 | a value that can be encoded comes back as it was if and only if it holds no character string (those come back as byte strings) |
| `ContainerValues.ListCanonical` | crates/server/src/lib.rs:4075-4131 | the elements read from a list encode to the same bytes |
| `ContainerValues.DecodedSettles` | crates/server/src/lib.rs:3998-4042 | whatever bytes arrive, the decoded value has its sets and maps in order without duplicates and survives every later trip |
| `WireLayout.IntegerOnWire` | crates/server/src/lib.rs:3942-3948 | an integer is its remainder modulo 2^64, the lowest byte first |
| `WireLayout.StringOnWire` | crates/server/src/lib.rs:4108-4131 | a string in a container follows its length in four bytes, the lowest first |
| `WireLayout.ContainersOnWire` | crates/server/src/lib.rs:3953-3987 | elements stand in their order, and an entry's key before its value |
| `Utf8.TextRoundTrip` | crates/hyperdex-admin-protocol/src/lib.rs:1201-1206 | text survives its encoding |
| `Utf8.TextCanonical` | crates/hyperdex-admin-protocol/src/lib.rs:1201-1206 | bytes accepted as text are that text's encoding |
| `WireLayout.CharacterOnWire` | crates/hyperdex-admin-protocol/src/lib.rs:1201-1206 | a character takes one to four bytes, with its bits where section 3.9 of the Unicode Standard puts them |
| `WireLayout.TextOnWire` | crates/hyperdex-admin-protocol/src/lib.rs:1201-1206 | characters stand in their order |
| `PackedSpace.KindRoundTrip` | crates/server/src/lib.rs:1909-1948 | every kind that has a datatype code is read back from it by the other crate, except a plain byte string |
| `WireLayout.CodesAreTags` | crates/server/src/lib.rs:4044-4073 | the code under which a kind is announced is the tag by which operands of that kind are read; plain byte strings, documents and timestamps are no tags |
| `WireLayout.PrimitiveCodes` | crates/server/src/lib.rs:1909-1948 | the codes of the primitive kinds, and of some containers and timestamps |
| `PackedSpace.SubspaceReadBack` | crates/hyperdex-admin-protocol/src/lib.rs:1090-1128 | a subspace is read back unless its number of regions is not the expected one |
| `PackedSpace.PackedSpaceExact` | crates/hyperdex-admin-protocol/src/lib.rs:995-1088 | what the reader makes of any space the writer packs: refused for a byte-string attribute or a different number of regions, otherwise the space less the key among its subspace dimensions |
| `PackedSpace.PackedSpaceRoundTrip` | crates/server/src/lib.rs:1628-1760 | a packed space is read back as it was if and only if it has no byte-string attribute, equal region counts, no key among its dimensions and the default format |
| `PackedSpace.PairSubspacesAreRefused` | crates/hyperdex-admin-protocol/src/lib.rs:1098-1108 | a schema with a two-attribute subspace is refused unless it has one, four or six partitions |
| `PackedSpace.SecretNeedsItsName` | crates/hyperdex-admin-protocol/src/lib.rs:1005-1019 | an attribute with the secret's datatype is read only under the secret's name |
| `PackedSpace.SecretIsLeftOut` | crates/hyperdex-admin-protocol/src/lib.rs:1045-1055 | and is left out of the schema wherever it stands |
| `PackedDecoding.PackedSpaceDecoder.ReadExact` | crates/hyperdex-admin-protocol/src/lib.rs:1216-1232 | takes so many bytes and moves the cursor behind them, or fails |
| `PackedDecoding.PackedSpaceDecoder.ReadSlice` | crates/hyperdex-admin-protocol/src/lib.rs:1196-1199 | takes a length-prefixed slice |
| `PackedDecoding.PackedSpaceDecoder.ReadAttributes` | crates/hyperdex-admin-protocol/src/lib.rs:1005-1019 | the loop over the attributes |
| `PackedDecoding.PackedSpaceDecoder.ReadSubspace` | crates/hyperdex-admin-protocol/src/lib.rs:1090-1128 | one subspace, checked against the partition count seen first |
| `PackedDecoding.PackedSpaceDecoder.ReadSubspaces` | crates/hyperdex-admin-protocol/src/lib.rs:1031-1037 | the loop over the subspaces, which hands the partition count on |
| `PackedDecoding.PackedSpaceDecoder.SkipRegion` | crates/hyperdex-admin-protocol/src/lib.rs:1130-1146 | skips a region by its announced size |
| `PackedDecoding.PackedSpaceDecoder.SkipSecondaryIndex` | crates/hyperdex-admin-protocol/src/lib.rs:1148-1164 | checks and skips a secondary index |
| `PackedDecoding.DecodePackedSpace` | crates/hyperdex-admin-protocol/src/lib.rs:995-1088 | the cursor decoder computes the decoding function |
| `PackedEncoding.LegacyConfigIds.Allocate` | crates/server/src/lib.rs:1593-1597 | hands out consecutive ids |
| `PackedEncoding.AppendSubspace` | crates/server/src/lib.rs:1702-1760 | appends a subspace with its boxes, replica sets and ids in the order the source gives them out |
| `PackedEncoding.IndexAttributes` | crates/server/src/lib.rs:1634-1651 | the table finds the last attribute of a name |
| `PackedEncoding.AppendSpace` | crates/server/src/lib.rs:1628-1700 | the buffer-and-counter encoder computes the encoding function |
| `SpaceReader.WholeSpaceBack` | crates/server/src/lib.rs:1628-1760 | a client that reads all of an encoded space gets its name, tolerance and attributes with their codes, every subspace with its attribute indexes, every region with its bounds and its servers in order, and the ids handed out one after another in the source's order |
| `Schema.ScanTopLevel` | crates/data-model/src/lib.rs:397-412 | the depth-counting loop finds the first delimiter outside parentheses |
| `Schema.ScanKind` | crates/data-model/src/lib.rs:414-433 | a printed kind is balanced and keeps its commas and blanks inside parentheses |
| `Schema.KindReadBack` | crates/data-model/src/lib.rs:335-395 | every kind, nested to any depth, is parsed back from its printed form |
| `Schema.KindWords` | crates/data-model/src/lib.rs:335-433 | the words of the schema language for primitive kinds and time units |
| `Schema.ContainerWords` | crates/data-model/src/lib.rs:414-433 | containers and timestamps around them |
| `Schema.FormatLoop` | crates/data-model/src/lib.rs:186-211 | the line buffer, joined, is every line with its line ending |
| `Schema.PrintedWords` | crates/data-model/src/lib.rs:186-211 | the lines of a schema with one attribute and one subspace, word for word |
| `Schema.ParseLoop` | crates/data-model/src/lib.rs:213-304 | the loop over lines computes the fold of its steps |
| `Schema.ParsedIsLineSafe` | crates/data-model/src/lib.rs:213-304 | whatever the text, parsed names keep to their lines, there is an attribute, and the format is the default |
| `Schema.ParsedOptions` | crates/data-model/src/lib.rs:174-304 | the last "tolerate" and "create" lines of a text decide its options; without them it has tolerance 0 and 64 partitions |
| `Schema.StepSorts` | crates/data-model/src/lib.rs:213-285 | what each sort of line does: it opens or ends the list of attributes, adds one to an open list, adds a subspace, or replaces the name or the key |
| `Schema.AttributesAreDeclared` | crates/data-model/src/lib.rs:213-285 | over every text the attributes are the lines between a heading and the next line of another sort |
| `Text.PlusMakesNoDifference` | crates/data-model/src/lib.rs:256-283 | a count may have a plus sign but needs a digit |
| `Text.DecimalPlaces` | crates/data-model/src/lib.rs:203-208 | counts are printed in decimal, the highest digit first |
| `Text.SpacesAre` | crates/data-model/src/lib.rs:222-222 | the characters that are trimmed are the twenty-five with the Unicode property White_Space |
| `Schema.ParsePrinted` | crates/data-model/src/lib.rs:186-304 | what the parser makes of any printed space, attribute names that end in commas and subspaces without dimensions included |
| `Schema.SchemaRoundTrip` | crates/data-model/src/lib.rs:186-433 | a printed space is parsed back if and only if its names are trimmed and keep to their lines, attribute names do not end in a comma, dimensions have no commas, no list is empty and the format is the default |
| `AtomicPath.ApplyFuncallsInPlace` | crates/server/src/lib.rs:3650-3652 | the loop that edits a copy of the record call by call |
| `AtomicPath.QuotientInRange` | crates/server/src/lib.rs:4179-4194 | floor division and remainder, whose meaning `IntegerArithmetic.DirectDivision` gives, stay within 64 bits, save for the one overflow the source handles |
| `IntegerArithmetic.DirectDivision` | crates/server/src/lib.rs:4179-4194 | the old value is the quotient times the operand plus the remainder, which is smaller than the operand and has the operand's sign |
| `IntegerArithmetic.DivisionIsUnique` | crates/server/src/lib.rs:4179-4194 | that determines quotient and remainder |
| `IntegerArithmetic.UndefinedDivision` | crates/server/src/lib.rs:4179-4184 | division by zero is an error here and a panic in the engine; the one overflow gives the smallest number and remainder zero here and a panic there |
| `IntegerArithmetic.BothPathsWorkOnBits` | crates/server/src/lib.rs:4170-4172 | and, or and exclusive or, bit by bit, alike on both paths |
| `IntegerArithmetic.BothPathsSaturate` | crates/server/src/lib.rs:4165-4167 | sum, difference and product are the 64-bit number nearest to the exact result, alike on both paths |
| `IntegerArithmetic.NearestIsExact` | crates/server/src/lib.rs:4165-4167 | which is the exact result whenever that has 64 bits |
| `IntegerArithmetic.Extremes` | crates/server/src/lib.rs:4173-4174 | the larger and the smaller of the two numbers |
| `IntegerArithmetic.IntegerCallStores` | crates/server/src/lib.rs:3684-3768 | a call puts the result of its operation into the attribute it names, a missing one counting as zero, and nothing else; it fails on a value that is no number |
| `IntegerArithmetic.TaggedOperands` | crates/server/src/lib.rs:4243-4249 | an operand tagged as a float is rounded, and one with any tag but integer and float is refused |
| `IntegerArithmetic.AssignmentStores` | crates/server/src/lib.rs:3691-3698 | function 1 assigns the value that the operand's bytes are under their tag |
| `IntegerArithmetic.KeyIsAttributeZero` | crates/server/src/lib.rs:3433-3444 | attribute 0 is the key, and n is the n-th of the schema |
| `AtomicPath.GuardIsExact` | crates/server/src/lib.rs:3474-3489 | the guard admits exactly the integer operations that the engine and the direct path compute alike on all operands |
| `AtomicPath.OneCallAgreesExactly` | crates/server/src/lib.rs:4243-4249 | a translated call does to every record what the direct path does if and only if both read its operand alike: always for one tagged as an integer, for one tagged as a float if its bytes as an integer are what it rounds to |
| `AtomicPath.FastPathAgrees` | crates/server/src/lib.rs:3587-3627 | for every record and every admitted request with such operands, translating and applying mutations succeeds exactly if applying the calls directly does, with the same record |
| `AtomicPath.DirectPathStores` | crates/server/src/lib.rs:3629-3682 | putting one assignment for each attribute, in any order, stores exactly the record the calls made |
| `AtomicPath.BothPathsStoreTheSame` | crates/server/src/lib.rs:3629-3682 | a successful request leaves the same table by both paths |
| `AtomicPath.AllOrNothingExact` | crates/engine-memory/src/lib.rs:131-188 | a list of assignments and total arithmetic leaves every table as it was whenever it fails, if and only if each arithmetic mutation after the first is on an attribute whose last earlier mutation is arithmetic or sets an integer |
| `AtomicEffects.DirectPathIsAList` | crates/server/src/lib.rs:3650-3652 | the direct path does to every record what a list of mutations with its own reading of the operands does |
| `AtomicEffects.PathsAgreeExactly` | crates/server/src/lib.rs:3587-3682 | an admitted request, failing or not, leaves the same table by both paths for every table and key if and only if it does not translate, or its mutations are such and both readings of its operands make the same of every number on each attribute |
| `AtomicEffects.ReadAlikeMeansSameEffects` | crates/server/src/lib.rs:4243-4249 | the latter is the case if both read all operands alike, as they do all that are tagged as integers |
| `AtomicEffects.LoneCallDecides` | crates/server/src/lib.rs:4243-4249 | for a call that is the only one on its attribute it is the case there if and only if both read its operand alike |
| `AtomicPath.FailedRequestsDiffer` | crates/server/src/lib.rs:3587-3613 | two additions, the second of which meets a value that is no number: the shortcut has stored the first, the direct path nothing |
| `ConfigSync.ClusterRuntime.CreateSpace` | crates/server/src/lib.rs:268-273 | a duplicate is refused without a trace, although the table is made first; catalog and storage stay in step |
| `ConfigSync.ClusterRuntime.DropSpace` | crates/server/src/lib.rs:275-283 | removes definition and records together, or refuses |
| `ConfigSync.ClusterRuntime.RegisterDaemon` | crates/server/src/lib.rs:1146-1158 | catalog and cluster configuration take the node alike and stay in step; the version changes exactly if either did |
| `ConfigSync.UpsertKeepsHeld` | crates/server/src/lib.rs:2511-2523 | replacing or adding a node keeps ids unique and the catalog's nodes those of the configuration |
| `AdoptedRouting.UpsertRises` | crates/server/src/lib.rs:2511-2523 | a registration that changes the node list leaves it in the order of ids |
| `ConfigSync.ClusterRuntime.ConfigView` | crates/server/src/lib.rs:1125-1144 | the view shows the whole catalog, each space once |
| `ConfigSync.ClusterRuntime.ApplyConfigView` | crates/server/src/lib.rs:1171-1208 | whatever the view, one that repeats names or ids included, the loops leave the adopted configuration with catalog and storage in step, and with the nodes in step if no id is repeated |
| `ConfigSync.UnchangedSpacesKeepRecords` | crates/server/src/lib.rs:1189-1201 | a space whose definition the view repeats, and nowhere contradicts, keeps its records |
| `ConfigSync.OtherSpacesStartEmpty` | crates/server/src/lib.rs:1183-1201 | new spaces and those defined otherwise anywhere in the view start empty, unnamed ones are gone |
| `ConfigSync.AdoptionSettles` | crates/server/src/lib.rs:1171-1208 | adopting a view again changes nothing |
| `ConfigSync.AdoptionConverges` | crates/server/src/lib.rs:1171-1208 | a daemon that adopts any view its coordinator can show has the coordinator's catalog, nodes and versions, and both locate every key identically |
| `ConfigSync.CatalogedKeysArePlaced` | crates/server/src/lib.rs:1228-1277 | in every consistent configuration each key of a cataloged space is placed on configured nodes |
| `AdminSession.IdentityIsSettled` | crates/server/src/lib.rs:1297-1329 | over every run the session introduces itself once, to the first peer that introduces itself, under the sender id it then keeps; every later introduction agrees with that one |
| `AdminSession.CoordinatorAdminSession.QueueReadyWaits` | crates/server/src/lib.rs:1435-1456 | completes exactly the stability waits whose state is reached, in nonce order |
| `AdminSession.CoordinatorAdminSession.QueueReadyConfigWaits` | crates/server/src/lib.rs:1415-1433 | the same for configuration waits, with the encoded view |
| `AdminSession.CoordinatorAdminSession.HandleFrame` | crates/server/src/lib.rs:2151-2341 | a frame is handled as the session function says, whose replies `AdminReplies.RepliesAreRight` spells out |
| `AdminSession.RequestLeavesNoneReady` | crates/server/src/lib.rs:2338-2340 | when a request frame is done no ready wait is pending, not even one it made ready itself |
| `AdminSession.ServeConnection` | crates/server/src/lib.rs:2028-2054 | the connection's loop over frames sends what the run of turns sends, up to the first frame that fails |
| `AdminSession.WaitsAreCounted` | crates/server/src/lib.rs:2151-2341 | over every run that no frame ends and for every nonce, the waits asked for, and the replies to other conditions, are those answered, pending or overwritten |
| `AdminSession.NothingLostExactly` | crates/server/src/lib.rs:2209-2229 | no wait is lost if and only if no frame files one under a nonce that is pending in the same map |
| `AdminSession.AnswersAreJustified` | crates/server/src/lib.rs:2151-2341 | each pending wait was asked for with its state, and each answer answers a wait that was asked for, with success and not before its state was reached; what it carries is said by `AdminReplies.AnswersCarryTheirData` |
| `AdminReplies.RepliesAreRight` | crates/server/src/lib.rs:2151-2341 | over every run each frame is followed by its own answer and then by those to the waits that have become ready, in nonce order: the configuration as it is now encoded and one past its version, or one past the stable version and no data; calls get the runtime's answer, unknown objects, functions and conditions their status |
| `AdminReplies.AnswersCarryTheirData` | crates/server/src/lib.rs:1398-1456 | over every run each answer to a wait carries what the runtime showed after the frame it was sent on, whichever earlier frame asked |
| `AdminReplies.RobustNoncesCount` | crates/server/src/lib.rs:1338-1342 | command nonces count the requests for them, from one on |
| `AdminSession.BootstrapReadBack` | crates/server/src/lib.rs:1546-1560 | the bootstrap configuration is read back field by field: cluster, version and first slot 1, and the session's sender id with its address as the only server |
| `AdminSession.WaitsAreConserved` | crates/server/src/lib.rs:2028-2054 | if the peer never reuses a nonce, no wait is lost, and each is pending with its state and unanswered or was answered exactly once, successfully and not before its state was reached |
| `AdminSession.ReachedWaitsAreAnswered` | crates/server/src/lib.rs:1398-1456 | after any run that ends with a request no wait whose state is reached is pending: those under a nonce all of whose waits are reached were answered or overwritten, one by one |
| `AdminSession.ReusedNonceLosesAWait` | crates/server/src/lib.rs:2209-2229 | two waits under one nonce, the second filed while the first is pending, get one answer |

## Left out

- Sockets, asynchronous tasks, gRPC, JSON and process start-up; one client operation runs at a time.
- A message is lost before it is handled. A reply lost after its request was handled is not modelled.
- Error texts: the distinctions the code draws by matching them (unavailable, missing space, other) are tags, and an unreachable node is never reported as a missing space.
- The header and the server entries of an encoded configuration: its spaces are encoded one by one, each with the first id it is given.
- Hash functions (CityHash, FNV) are arbitrary functions; score and token positions are parameters.
- `powf` in `legacy_partition_regions`: the integer part of the root is a parameter, except for one attribute, where it is the partition count.
- Float arithmetic. Doubles are eight bytes with the order and the equality the source gives them; rounding one to an integer is an arbitrary function.
- Panics (division by zero in the engine, no partitions, an attribute-less subspace) are errors. Checks that only a debug build makes, of overflow for instance, are not modelled. What a panicking mutation may have inserted before it panicked is not kept.
- RocksEngine, the consensus wrappers, the named-field codec family, search sessions, enum tables and return-code mappings.
- The library's sorts are sorting functions, not algorithms.
- The order of records inside an internal search reply, of the mutations that restore a record, and of spaces in a configuration view: receivers do not depend on them.
- HandleClientWrite: assumes that no node is registered twice in a layout and that records are filed under their keys, which every write keeps.
- ExecuteDeleteGroup: assumes distinct member ids in the cluster configuration.
- ReplicaSetsWellFormed: assumes distinct servers, as the catalog's map provides.
- RunsKeepAgreement: assumes that all daemons share catalog and layout.
- RunRefinesExactly: assumes the same.
- EveryRunImplementsExactly: assumes the same.
- DecodeSpace: the reader's default partition count for a space without subspaces is kept, but no writer produces such a space.
- ApplyFuncall: only plain assignment and arithmetic on integer attributes; string, list, set, map and float calls of the direct path never meet the shortcut.
- PathsAgreeExactly: speaks of requests whose arithmetic operands are tagged as integers or floats, as the source's validation demands before it chooses a path.
- AdoptionConverges: speaks of views a coordinator can show, which name each space and node once.
- NextVersion: versions wrap around as in a release build.
- HandleFrame: the effect of a call on the runtime and the wire form of the coordinator's address are parameters. A failing configuration encoder ends the connection with an error.
- WaitsAreConserved: speaks of connections on which no frame failed, since the first failing frame closes the connection.
