/** What comparing two values means, kind by kind, and with it what the checks
    of a request ask for (crates/data-model, crates/engine-memory). */
module ValueOrder {
  import opened Arithmetic
  import opened Base
  import opened DataModel
  import opened Engine
  import opened KeyOrder

  // ------------------------------------------------------------- byte strings

  /** A proper prefix, or smaller at the first byte that differs. */
  ghost predicate BytesBelow(a: Bytes, b: Bytes) {
    a < b || exists k :: 0 <= k < |a| && k < |b| && DiffersFirstAt(a, b, k) && a[k] < b[k]
  }

  predicate DiffersFirstAt(a: Bytes, b: Bytes, k: nat)
    requires k < |a| && k < |b|
  {
    a[..k] == b[..k] && a[k] != b[k]
  }

  lemma {:induction false} BytesInOrder(a: Bytes, b: Bytes)
    ensures CompareBytes(a, b) < 0 <==> BytesBelow(a, b)
  {
    if a != [] && b != [] {
      var p, q := a[1..], b[1..];
      assert a == [a[0]] + p && b == [b[0]] + q;
      if a[0] != b[0] {
        assert DiffersFirstAt(a, b, 0);
        forall k | 0 < k <= |a| && k <= |b| ensures a[..k] != b[..k] { assert a[..k][0] == a[0] && b[..k][0] == b[0]; }
      } else {
        BytesInOrder(p, q);
        BelowWithoutHead(a, b);
      }
    }
  }

  lemma BelowWithoutHead(a: Bytes, b: Bytes)
    requires a != [] && b != [] && a[0] == b[0]
    ensures BytesBelow(a, b) <==> BytesBelow(a[1..], b[1..])
  {
    var p, q := a[1..], b[1..];
    assert a == [a[0]] + p && b == [b[0]] + q;
    if k :| 0 <= k < |a| && k < |b| && DiffersFirstAt(a, b, k) && a[k] < b[k] { HeadOff(a, b, k); }
    if k :| 0 <= k < |p| && k < |q| && DiffersFirstAt(p, q, k) && p[k] < q[k] { HeadOn(a, b, k); }
  }

  lemma HeadOff(a: Bytes, b: Bytes, k: nat)
    requires k < |a| && k < |b| && a[0] == b[0] && DiffersFirstAt(a, b, k)
    ensures k > 0 && DiffersFirstAt(a[1..], b[1..], k - 1)
  {
    assert a[1..][..k - 1] == a[..k][1..] && b[1..][..k - 1] == b[..k][1..];
  }

  lemma HeadOn(a: Bytes, b: Bytes, k: nat)
    requires a != [] && b != [] && a[0] == b[0] && k < |a[1..]| && k < |b[1..]| && DiffersFirstAt(a[1..], b[1..], k)
    ensures DiffersFirstAt(a, b, k + 1)
  {
    assert a[..k + 1] == [a[0]] + a[1..][..k] && b[..k + 1] == [b[0]] + b[1..][..k];
  }

  // --------------------------------------------------------------- containers

  /** The first `k` elements compare equal; there `a` ends and `b` goes on, or
      the next element of `a` is the smaller one. */
  predicate ValuesPartAt(a: seq<Value>, b: seq<Value>, k: nat) {
    && k <= |a| && k < |b|
    && (forall i :: 0 <= i < k ==> Compare(a[i], b[i]) == 0)
    && (k < |a| ==> Compare(a[k], b[k]) < 0)
  }

  /** Lists, and sets in the order of their elements, compare as words do. */
  lemma {:induction false} ValuesInOrder(a: seq<Value>, b: seq<Value>)
    ensures CompareValues(a, b) < 0 <==> exists k: nat :: ValuesPartAt(a, b, k)
    ensures CompareValues(a, b) == 0 <==> |a| == |b| && forall i :: 0 <= i < |a| ==> Compare(a[i], b[i]) == 0
  {
    if a == [] || b == [] {
      if a == [] && b != [] { assert ValuesPartAt(a, b, 0); }
    } else {
      hide Compare;
      var p, q := a[1..], b[1..];
      ValuesInOrder(p, q);
      assert forall i :: 0 < i < |a| ==> a[i] == p[i - 1];
      assert forall i :: 0 < i < |b| ==> b[i] == q[i - 1];
      if Compare(a[0], b[0]) < 0 { assert ValuesPartAt(a, b, 0); }
      if Compare(a[0], b[0]) == 0 {
        if k: nat :| ValuesPartAt(p, q, k) { assert ValuesPartAt(a, b, k + 1); }
        if k: nat :| ValuesPartAt(a, b, k) { assert k > 0 && ValuesPartAt(p, q, k - 1); }
        if CompareValues(a, b) == 0 {
          forall i | 0 <= i < |a| ensures Compare(a[i], b[i]) == 0 { if i > 0 { assert a[i] == p[i - 1]; } }
        }
        if |a| == |b| && forall i :: 0 <= i < |a| ==> Compare(a[i], b[i]) == 0 {
          forall i | 0 <= i < |p| ensures Compare(p[i], q[i]) == 0 { assert p[i] == a[i + 1]; }
        }
      }
    }
  }

  /** Map entries compare by key, and by value under equal keys. */
  predicate EntryBelow(a: Entry, b: Entry) {
    Compare(a.key, b.key) < 0 || (Compare(a.key, b.key) == 0 && Compare(a.value, b.value) < 0)
  }

  predicate EntryAlike(a: Entry, b: Entry) {
    Compare(a.key, b.key) == 0 && Compare(a.value, b.value) == 0
  }

  predicate EntriesPartAt(a: seq<Entry>, b: seq<Entry>, k: nat) {
    && k <= |a| && k < |b|
    && (forall i :: 0 <= i < k ==> EntryAlike(a[i], b[i]))
    && (k < |a| ==> EntryBelow(a[k], b[k]))
  }

  lemma {:induction false} EntriesInOrder(a: seq<Entry>, b: seq<Entry>)
    ensures CompareEntries(a, b) < 0 <==> exists k: nat :: EntriesPartAt(a, b, k)
    ensures CompareEntries(a, b) == 0 <==> |a| == |b| && forall i :: 0 <= i < |a| ==> EntryAlike(a[i], b[i])
  {
    if a == [] || b == [] {
      if a == [] && b != [] { assert EntriesPartAt(a, b, 0); }
    } else {
      hide Compare;
      var p, q := a[1..], b[1..];
      EntriesInOrder(p, q);
      EntryMeaning(a[0], b[0]);
      hide EntryBelow, EntryAlike, CompareEntry;
      assert forall i :: 0 < i < |a| ==> a[i] == p[i - 1];
      assert forall i :: 0 < i < |b| ==> b[i] == q[i - 1];
      if EntryBelow(a[0], b[0]) { assert EntriesPartAt(a, b, 0); }
      if EntryAlike(a[0], b[0]) {
        if k: nat :| EntriesPartAt(p, q, k) { assert EntriesPartAt(a, b, k + 1); }
        if k: nat :| EntriesPartAt(a, b, k) { assert k > 0 && EntriesPartAt(p, q, k - 1); }
        if CompareEntries(a, b) == 0 {
          forall i | 0 <= i < |a| ensures EntryAlike(a[i], b[i]) { if i > 0 { assert a[i] == p[i - 1]; } }
        }
        if |a| == |b| && forall i :: 0 <= i < |a| ==> EntryAlike(a[i], b[i]) {
          forall i | 0 <= i < |p| ensures EntryAlike(p[i], q[i]) { assert p[i] == a[i + 1]; }
        }
      }
    }
  }

  lemma EntryMeaning(a: Entry, b: Entry)
    ensures CompareEntry(a, b) < 0 <==> EntryBelow(a, b)
    ensures CompareEntry(a, b) == 0 <==> EntryAlike(a, b)
    ensures !(EntryBelow(a, b) && EntryAlike(a, b))
  {
  }

  // ------------------------------------------------------------------ doubles

  const INFINITE: int := 0x7FF0_0000_0000_0000
  const FRACTION: int := 0x10_0000_0000_0000

  /** The number a finite double denotes, in units of the smallest positive
      double: 11 bits of exponent over 52 of fraction (IEEE 754, section 3.4). */
  function DoubleNumber(bits: u64): int
    requires bits % TWO_63 < INFINITE
  {
    var size: int := Significand(bits % TWO_63);
    if bits >= TWO_63 then -size else size
  }

  function Significand(magnitude: nat): nat {
    var exponent, fraction := magnitude / FRACTION, magnitude % FRACTION;
    if exponent == 0 then fraction else (FRACTION + fraction) * Pow2(exponent - 1)
  }

  lemma SignificandGrows(m: nat, n: nat)
    requires m < n
    ensures Significand(m) < Significand(n)
  {
    assert forall e: nat :: e > 0 ==> Pow2(e) == 2 * Pow2(e - 1);
    hide Pow2;
    var e, f := m / FRACTION, n / FRACTION;
    assert m == FRACTION * e + m % FRACTION && n == FRACTION * f + n % FRACTION;
    assert e <= f;
    if e == f {
      if e > 0 {
        PowerPositive(e - 1);
        MulStrictMono(FRACTION + m % FRACTION, FRACTION + n % FRACTION, Pow2(e - 1));
      }
    } else {
      PowerPositive(f - 1);
      MulMono(FRACTION, FRACTION + n % FRACTION, Pow2(f - 1));
      if e == 0 {
        MulMono(1, Pow2(f - 1), FRACTION);
      } else {
        PowerPositive(e - 1);
        MulStrictMono(FRACTION + m % FRACTION, 2 * FRACTION, Pow2(e - 1));
        PowerGrows(e, f - 1);
        MulMono(Pow2(e), Pow2(f - 1), FRACTION);
      }
    }
  }

  lemma {:induction false} PowerPositive(e: nat)
    ensures Pow2(e) > 0
  {
    if e > 0 { PowerPositive(e - 1); }
  }

  lemma {:induction false} PowerGrows(e: nat, f: nat)
    requires e <= f
    ensures Pow2(e) <= Pow2(f)
  {
    if e < f { PowerGrows(e, f - 1); }
  }

  lemma SignificandFromZero(m: nat)
    ensures m == 0 <==> Significand(m) == 0
  {
    if m > 0 { SignificandGrows(0, m); }
  }

  /** Finite doubles compare as the numbers they denote. */
  lemma DoublesInOrder(x: u64, y: u64)
    requires x % TWO_63 < INFINITE && y % TWO_63 < INFINITE
    ensures Compare(Float(x), Float(y)) == Sign(DoubleNumber(x) - DoubleNumber(y))
  {
    hide Significand;
    var m, n := x % TWO_63, y % TWO_63;
    SignificandFromZero(m);
    SignificandFromZero(n);
    if m < n { SignificandGrows(m, n); } else if n < m { SignificandGrows(n, m); }
  }

  predicate IsNaN(bits: u64) { bits % TWO_63 > INFINITE }

  /** The infinities are the ends of the finite doubles; what is no number is
      above all numbers and equal to itself, whatever its bits. */
  lemma DoublesBeyond(x: u64, y: u64)
    ensures IsNaN(y) ==> Compare(Float(x), Float(y)) == if IsNaN(x) then 0 else -1
    ensures x % TWO_63 < INFINITE && y == INFINITE ==> Compare(Float(x), Float(y)) < 0
    ensures (x % TWO_63 < INFINITE || x == INFINITE) && y == TWO_63 + INFINITE ==> Compare(Float(x), Float(y)) > 0
  {
  }

  // ----------------------------------------------------------------- variants

  /** Values of different variants compare by the variant alone. */
  lemma VariantsInOrder(b: bool, i: i64, f: u64, x: Bytes, t: Bytes, l: seq<Value>, s: seq<Value>, m: seq<Entry>)
    ensures SortedValues([Null, Bool(b), Int(i), Float(f), Blob(x), Text(t), List(l), Set(s), Map(m)])
    ensures Compare(Bool(false), Bool(true)) < 0
  {
    var vs := [Null, Bool(b), Int(i), Float(f), Blob(x), Text(t), List(l), Set(s), Map(m)];
    forall j, k | 0 <= j < k < |vs| ensures Compare(vs[j], vs[k]) < 0 {
      assert Rank(vs[j]) == j && Rank(vs[k]) == k;
    }
  }

  // --------------------------------------------------------------- predicates

  /** What each check asks of two integers. */
  predicate IntegerHolds(x: int, predicate_: Predicate, y: int) {
    match predicate_
    case Equal => x == y
    case LessThan => x < y
    case LessThanOrEqual => x <= y
    case GreaterThan => x > y
    case GreaterThanOrEqual => x >= y
  }

  lemma IntegerChecks(x: i64, predicate_: Predicate, y: i64)
    ensures MatchesPredicate(Int(x), predicate_, Int(y)) <==> IntegerHolds(x, predicate_, y)
  {
  }

  lemma BytesChecks(a: Bytes, b: Bytes)
    ensures MatchesPredicate(Blob(a), LessThan, Blob(b)) <==> BytesBelow(a, b)
    ensures MatchesPredicate(Text(a), LessThan, Text(b)) <==> BytesBelow(a, b)
    ensures MatchesPredicate(Blob(a), Equal, Blob(b)) <==> a == b
    ensures MatchesPredicate(Text(a), Equal, Text(b)) <==> a == b
  {
    BytesInOrder(a, b);
    CompareBytesZero(a, b);
  }

  /** The five checks are one order seen from five sides. */
  lemma ChecksAreOneOrder(a: Value, b: Value)
    ensures MatchesPredicate(a, LessThan, b) ==> !MatchesPredicate(a, Equal, b) && !MatchesPredicate(a, GreaterThan, b)
    ensures MatchesPredicate(a, Equal, b) ==> !MatchesPredicate(a, GreaterThan, b)
    ensures MatchesPredicate(a, LessThan, b) || MatchesPredicate(a, Equal, b) || MatchesPredicate(a, GreaterThan, b)
    ensures MatchesPredicate(a, LessThanOrEqual, b) <==> MatchesPredicate(a, LessThan, b) || MatchesPredicate(a, Equal, b)
    ensures MatchesPredicate(a, GreaterThanOrEqual, b) <==> MatchesPredicate(a, GreaterThan, b) || MatchesPredicate(a, Equal, b)
    ensures MatchesPredicate(a, LessThan, b) <==> MatchesPredicate(b, GreaterThan, a)
    ensures MatchesPredicate(a, Equal, b) <==> MatchesPredicate(b, Equal, a)
  {
    CompareAntisymmetric(a, b);
  }

  /** A value against an integer: null and booleans are below every integer,
      and all other values that are no integers above. */
  predicate HoldsAgainst(v: Value, predicate_: Predicate, y: i64) {
    if v.Int? then IntegerHolds(v.i, predicate_, y)
    else if v.Null? || v.Bool? then predicate_.LessThan? || predicate_.LessThanOrEqual?
    else predicate_.GreaterThan? || predicate_.GreaterThanOrEqual?
  }

  ghost predicate Passes(record: Record, attribute: Name, predicate_: Predicate, y: i64) {
    attribute in record.attributes && HoldsAgainst(record.attributes[attribute], predicate_, y)
  }

  lemma OneIntegerCheck(record: Record, attribute: Name, predicate_: Predicate, y: i64)
    ensures RecordMatches(record, [Check(attribute, predicate_, Int(y))]) <==> Passes(record, attribute, predicate_, y)
  {
    var check := Check(attribute, predicate_, Int(y));
    assert check in [check];
    if attribute in record.attributes {
      var v := record.attributes[attribute];
      assert MatchesPredicate(v, predicate_, Int(y)) <==> HoldsAgainst(v, predicate_, y);
    }
  }

  /** Several checks are met exactly if each is; no check lets every record pass. */
  lemma ChecksAreConjunction(record: Record, a: seq<Check>, b: seq<Check>)
    ensures RecordMatches(record, a + b) <==> RecordMatches(record, a) && RecordMatches(record, b)
    ensures RecordMatches(record, [])
  {
    hide MatchesPredicate;
    forall c | c in a + b ensures c in a || c in b {}
    assert forall c :: c in a ==> c in a + b;
    assert forall c :: c in b ==> c in a + b;
  }

  /** What a search with one integer check lists, and what a deletion with that
      check leaves: the records whose attribute is there and holds, and the rest. */
  lemma IntegerSearch(table: Table, list: seq<Record>, attribute: Name, predicate_: Predicate, y: i64)
    requires Keyed(table) && ListsInKeyOrder(list, Selection(table, [Check(attribute, predicate_, Int(y))]))
    ensures forall r :: r in list <==> r.key in table && table[r.key] == r && Passes(r, attribute, predicate_, y)
    ensures forall k :: k in RemoveMatching(table, [Check(attribute, predicate_, Int(y))]) <==>
                        k in table && !Passes(table[k], attribute, predicate_, y)
  {
    hide RecordMatches, Passes;
    var checks := [Check(attribute, predicate_, Int(y))];
    forall r: Record ensures RecordMatches(r, checks) <==> Passes(r, attribute, predicate_, y) {
      OneIntegerCheck(r, attribute, predicate_, y);
    }
    var selected := Selection(table, checks);
    forall r ensures r in list <==> r.key in selected && selected[r.key] == r {
      if r.key in selected && selected[r.key] == r {
        assert r.key in KeysOf(list);
        var i :| 0 <= i < |list| && KeysOf(list)[i] == r.key;
        assert list[i] == r;
      }
    }
  }
}
