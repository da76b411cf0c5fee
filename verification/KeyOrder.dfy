/** Enumerating a finite set of keys in the byte order of the source's trees. */
module KeyOrder {
  import opened Base
  import opened DataModel
  import opened Sorting

  lemma {:induction false} CompareBytesZero(a: Bytes, b: Bytes)
    ensures CompareBytes(a, b) == 0 <==> a == b
  {
    if a != [] && b != [] && a[0] == b[0] {
      CompareBytesZero(a[1..], b[1..]);
      assert a == [a[0]] + a[1..] && b == [b[0]] + b[1..];
    }
  }

  lemma {:induction false} CompareBytesTransitive(a: Bytes, b: Bytes, c: Bytes)
    requires CompareBytes(a, b) < 0 && CompareBytes(b, c) < 0
    ensures CompareBytes(a, c) < 0
  {
    if a != [] && a[0] == b[0] == c[0] {
      CompareBytesTransitive(a[1..], b[1..], c[1..]);
    }
  }

  predicate KeyBefore(a: Bytes, b: Bytes) { CompareBytes(a, b) < 0 }

  lemma KeysTotallyOrdered()
    ensures StrictTotal(KeyBefore)
  {
    forall a, b ensures !KeyBefore(a, a) && (KeyBefore(a, b) || KeyBefore(b, a) || a == b) {
      CompareBytesZero(a, a);
      CompareBytesZero(a, b);
      CompareBytesAntisymmetric(a, b);
    }
    forall a, b, c | KeyBefore(a, b) && KeyBefore(b, c) ensures KeyBefore(a, c) { CompareBytesTransitive(a, b, c); }
  }

  ghost predicate SortedKeys(ks: seq<Bytes>) {
    forall i, j :: 0 <= i < j < |ks| ==> CompareBytes(ks[i], ks[j]) < 0
  }

  /** Walking an ordered tree: the least remaining key comes next. */
  method ListKeys(s: set<Bytes>) returns (ks: seq<Bytes>)
    ensures SortedKeys(ks) && |ks| == |s|
    ensures forall k :: k in ks <==> k in s
  {
    ks := [];
    var remaining := s;
    while remaining != {}
      invariant remaining <= s && |ks| + |remaining| == |s|
      invariant SortedKeys(ks)
      invariant forall k :: k in s <==> k in ks || k in remaining
      invariant forall i, k :: 0 <= i < |ks| && k in remaining ==> CompareBytes(ks[i], k) < 0
    {
      KeysTotallyOrdered();
      LeastExists(remaining, KeyBefore);
      var k :| k in remaining && IsLeast(k, remaining, KeyBefore);
      ks := ks + [k];
      remaining := remaining - {k};
    }
  }

  predicate Filed(records: map<Bytes, Record>) {
    forall k :: k in records ==> records[k].key == k
  }

  function KeysOf(list: seq<Record>): seq<Bytes> {
    seq(|list|, i requires 0 <= i < |list| => list[i].key)
  }

  /** `list` holds the records of the map, each once, in increasing key order. */
  ghost predicate ListsInKeyOrder(list: seq<Record>, records: map<Bytes, Record>) {
    && |list| == |records|
    && SortedKeys(KeysOf(list))
    && (forall k :: k in KeysOf(list) <==> k in records)
    && (forall i :: 0 <= i < |list| ==> list[i].key in records && records[list[i].key] == list[i])
  }

  method ListRecords(records: map<Bytes, Record>) returns (list: seq<Record>)
    requires Filed(records)
    ensures ListsInKeyOrder(list, records)
  {
    var ks := ListKeys(records.Keys);
    assert forall i :: 0 <= i < |ks| ==> ks[i] in ks && ks[i] in records;
    list := seq(|ks|, i requires 0 <= i < |ks| => records[ks[i]]);
    assert KeysOf(list) == ks;
  }
}
