/** The order in which a tree keyed by 64-bit numbers lists its keys. */
module Numbering {
  import opened Base
  import opened Sorting

  predicate Below(a: u64, b: u64) { a < b }

  function Least(ids: set<u64>): (id: u64)
    requires ids != {}
    ensures IsLeast(id, ids, Below)
  {
    LeastExists(ids, Below);
    var id: u64 :| id in ids && IsLeast(id, ids, Below);
    id
  }

  function Ascending(ids: set<u64>): (list: seq<u64>)
    decreases |ids|
  {
    if ids == {} then [] else [Least(ids)] + Ascending(ids - {Least(ids)})
  }

  predicate Increasing(list: seq<u64>) { forall i, j :: 0 <= i < j < |list| ==> list[i] < list[j] }

  lemma {:induction false} AscendingFacts(ids: set<u64>)
    ensures forall id :: id in Ascending(ids) <==> id in ids
    ensures Increasing(Ascending(ids)) && Distinct(Ascending(ids))
    decreases |ids|
  {
    if ids != {} {
      var least, rest := Least(ids), Ascending(ids - {Least(ids)});
      AscendingFacts(ids - {least});
      var list := [least] + rest;
      forall i, j | 0 <= i < j < |list| ensures list[i] < list[j] {
        if i == 0 { assert list[j] == rest[j - 1] && rest[j - 1] in rest; }
      }
    }
  }
}
