/** Rendezvous and token-ring placement (crates/placement-core). The hash is any
    function: a score per node for a given key, a position per token. */
module Placement {
  import opened Arithmetic
  import opened Base
  import opened DataModel
  import opened Sorting

  datatype Decision = Decision(partition: nat, partitions: nat, primary: NodeId, replicas: seq<NodeId>)

  function Desired(replicas: nat, available: nat): nat { Min(Max(replicas, 1), Max(available, 1)) }

  function Others(n: NodeId): NodeId -> bool { m => m != n }

  function First<T>(s: seq<T>, count: nat): seq<T> { if count <= |s| then s[..count] else s }

  // ------------------------------------------------- prefixes of a preference list

  /** What one departure does to the replicas of a key: nothing if the node was
      not among them; otherwise it is taken out, the rest keep their order, and
      at most one node is added at the end. */
  ghost predicate MinimalChange(before: seq<NodeId>, after: seq<NodeId>, n: NodeId) {
    if n !in before then after == before
    else exists added: seq<NodeId> :: |added| <= 1 && after == Filter(before, Others(n)) + added
  }

  lemma {:induction false} FilterAbsent(s: seq<NodeId>, n: NodeId)
    requires n !in s
    ensures Filter(s, Others(n)) == s
  {
    if s != [] {
      assert s == [s[0]] + s[1..];
      FilterAbsent(s[1..], n);
    }
  }

  /** Taking one node out of a list in which it occurs at position `i`. */
  lemma {:induction false} FilterOne(s: seq<NodeId>, i: nat)
    requires Distinct(s) && i < |s|
    ensures Filter(s, Others(s[i])) == s[..i] + s[i + 1..]
  {
    if i == 0 {
      FilterAbsent(s[1..], s[0]);
    } else {
      FilterOne(s[1..], i - 1);
      assert s[1..][i - 1] == s[i] && s[0] != s[i];
      assert [s[0]] + s[1..][..i - 1] == s[..i] && s[1..][i..] == s[i + 1..];
    }
  }

  /** A list of all nodes by preference, of which the replicas are a prefix,
      changes minimally when one node leaves it. */
  lemma PrefixChangesMinimally(preference: seq<NodeId>, n: NodeId, replicas: nat)
    requires Distinct(preference) && n in preference && |preference| > 1
    ensures |Filter(preference, Others(n))| == |preference| - 1
    ensures MinimalChange(First(preference, Desired(replicas, |preference|)),
                          First(Filter(preference, Others(n)), Desired(replicas, |preference| - 1)), n)
  {
    var i :| 0 <= i < |preference| && preference[i] == n;
    FilterOne(preference, i);
    var d := Desired(replicas, |preference|);
    if i >= d {
      PrefixOutside(preference, i, d);
    } else {
      PrefixInside(preference, i, d);
      assert preference[..d][i] == n;
    }
  }

  lemma PrefixOutside(s: seq<NodeId>, i: nat, d: nat)
    requires Distinct(s) && d <= i < |s|
    ensures s[i] !in s[..d] && First(s[..i] + s[i + 1..], d) == s[..d]
  {
  }

  lemma PrefixInside(s: seq<NodeId>, i: nat, d: nat)
    requires Distinct(s) && i < d <= |s|
    ensures First(s[..i] + s[i + 1..], Min(d, |s| - 1)) == Filter(s[..d], Others(s[i])) + (if d < |s| then [s[d]] else [])
  {
    FilterOne(s[..d], i);
    assert s[..d][i] == s[i];
    SliceAround(s, i, d);
  }

  lemma SliceAround(s: seq<NodeId>, i: nat, d: nat)
    requires i < d <= |s|
    ensures s[..d][..i] + s[..d][i + 1..] == s[..i] + s[i + 1..d]
    ensures d < |s| ==> (s[..i] + s[i + 1..])[..d] == s[..i] + s[i + 1..d] + [s[d]]
    ensures d == |s| ==> (s[..i] + s[i + 1..])[..d - 1] == s[..i] + s[i + 1..d]
  {
    if d < |s| {
      var a, b := (s[..i] + s[i + 1..])[..d], s[..i] + s[i + 1..d] + [s[d]];
      assert |a| == d && |b| == d;
      forall k | 0 <= k < d ensures a[k] == b[k] {
        assert a[k] == if k < i then s[k] else s[k + 1];
      }
    }
  }

  // ----------------------------------------------------------------- rendezvous

  function Outranks(score: NodeId -> u64): (NodeId, NodeId) -> bool {
    (a: NodeId, b: NodeId) => score(a) > score(b) || (score(a) == score(b) && a < b)
  }

  function Ranking(nodes: seq<NodeId>, score: NodeId -> u64): seq<NodeId> { SortBy(nodes, Outranks(score)) }

  function BuildDecision(partition: nat, partitions: nat, ranked: seq<NodeId>, replicas: nat): Option<Decision> {
    if ranked == [] then None
    else
      var chosen := First(ranked, Desired(replicas, |ranked|));
      Some(Decision(partition, partitions, chosen[0], chosen))
  }

  function RendezvousLocate(nodes: seq<NodeId>, replicas: nat, score: NodeId -> u64): Option<Decision>
  {
    var ranked := Ranking(nodes, score);
    BuildDecision(0, |ranked|, ranked, replicas)
  }

  /** Different nodes, as many as asked for or as there are. */
  ghost predicate WellChosen(d: Option<Decision>, nodes: seq<NodeId>, replicas: nat) {
    && (d.None? <==> nodes == [])
    && (d.Some? ==>
        && Distinct(d.value.replicas) && |d.value.replicas| == Min(Max(replicas, 1), |nodes|)
        && (forall m :: m in d.value.replicas ==> m in nodes)
        && d.value.replicas != [] && d.value.primary == d.value.replicas[0])
  }

  lemma RendezvousWellChosen(nodes: seq<NodeId>, replicas: nat, score: NodeId -> u64)
    requires Distinct(nodes)
    ensures WellChosen(RendezvousLocate(nodes, replicas, score), nodes, replicas)
  {
    SortBySorts(nodes, Outranks(score));
  }

  /** `a` scores higher, or as high with the smaller id. */
  predicate Preferred(a: NodeId, b: NodeId, score: NodeId -> u64) {
    score(a) > score(b) || (score(a) == score(b) && a < b)
  }

  /** The replicas are in order of preference, and every node left out comes
      after all of them. */
  lemma RendezvousChoosesBest(nodes: seq<NodeId>, replicas: nat, score: NodeId -> u64)
    requires Distinct(nodes) && nodes != []
    ensures RendezvousLocate(nodes, replicas, score).Some?
    ensures var chosen := RendezvousLocate(nodes, replicas, score).value.replicas;
      && (forall i, j :: 0 <= i < j < |chosen| ==> Preferred(chosen[i], chosen[j], score))
      && (forall c, m :: c in chosen && m in nodes && m !in chosen ==> Preferred(c, m, score))
  {
    SortBySorts(nodes, Outranks(score));
    var ranked := Ranking(nodes, score);
    var chosen := First(ranked, Desired(replicas, |ranked|));
    assert forall k :: 0 <= k < |chosen| ==> ranked[k] == chosen[k] && ranked[k] in chosen;
    forall c, m | c in chosen && m in nodes && m !in chosen ensures Preferred(c, m, score) {
      var i :| 0 <= i < |chosen| && chosen[i] == c;
      var j :| 0 <= j < |ranked| && ranked[j] == m;
      assert ranked[i] == c;
    }
  }

  /** The order in which the nodes are listed makes no difference. */
  lemma RendezvousIgnoresOrder(a: seq<NodeId>, b: seq<NodeId>, replicas: nat, score: NodeId -> u64)
    requires Distinct(a) && Distinct(b) && forall n :: n in a <==> n in b
    ensures RendezvousLocate(a, replicas, score) == RendezvousLocate(b, replicas, score)
  {
    SortBySorts(a, Outranks(score));
    SortBySorts(b, Outranks(score));
    SortedUnique(Ranking(a, score), Ranking(b, score), Outranks(score));
  }

  lemma RendezvousConsistent(nodes: seq<NodeId>, n: NodeId, replicas: nat, score: NodeId -> u64)
    requires Distinct(nodes) && n in nodes && |nodes| > 1
    ensures RendezvousLocate(nodes, replicas, score).Some?
    ensures RendezvousLocate(Filter(nodes, Others(n)), replicas, score).Some?
    ensures MinimalChange(RendezvousLocate(nodes, replicas, score).value.replicas,
                          RendezvousLocate(Filter(nodes, Others(n)), replicas, score).value.replicas, n)
  {
    var ranked := Ranking(nodes, score);
    SortBySorts(nodes, Outranks(score));
    SortOfFilter(nodes, Others(n), Outranks(score));
    var i :| 0 <= i < |ranked| && ranked[i] == n;
    SortedIsDistinct(ranked, Outranks(score));
    FilterOne(ranked, i);
    PrefixChangesMinimally(ranked, n, replicas);
  }

  lemma SortedIsDistinct<T(!new)>(s: seq<T>, before: (T, T) -> bool)
    requires StrictTotal(before) && SortedBy(s, before)
    ensures Distinct(s)
  {
  }

  // ----------------------------------------------------------------- token ring

  datatype Token = Token(pos: u64, owner: NodeId, index: nat)

  predicate TokenBefore(a: Token, b: Token) {
    a.pos < b.pos || (a.pos == b.pos && (a.owner < b.owner || (a.owner == b.owner && a.index < b.index)))
  }

  type Positions = (NodeId, nat) -> u64

  function TokensOf(owner: NodeId, from: nat, count: nat, pos: Positions): seq<Token>
    decreases count - from
  {
    if from >= count then [] else [Token(pos(owner, from), owner, from)] + TokensOf(owner, from + 1, count, pos)
  }

  function Tokens(nodes: seq<NodeId>, count: nat, pos: Positions): seq<Token> {
    if nodes == [] then [] else TokensOf(nodes[0], 0, count, pos) + Tokens(nodes[1..], count, pos)
  }

  function Ring(nodes: seq<NodeId>, count: nat, pos: Positions): seq<Token> {
    SortBy(Tokens(nodes, count, pos), TokenBefore)
  }

  method BuildRing(nodes: seq<NodeId>, tokensPerNode: nat, pos: Positions) returns (ring: seq<Token>)
    ensures ring == Ring(nodes, Max(tokensPerNode, 1), pos)
  {
    var count := Max(tokensPerNode, 1);
    ring := [];
    for i := 0 to |nodes|
      invariant ring + Tokens(nodes[i..], count, pos) == Tokens(nodes, count, pos)
    {
      assert nodes[i..][1..] == nodes[i + 1..];
      for index := 0 to count
        invariant ring + TokensOf(nodes[i], index, count, pos) + Tokens(nodes[i + 1..], count, pos) == Tokens(nodes, count, pos)
      {
        var token := Token(pos(nodes[i], index), nodes[i], index);
        assert ring + ([token] + TokensOf(nodes[i], index + 1, count, pos)) == ring + [token] + TokensOf(nodes[i], index + 1, count, pos);
        ring := ring + [token];
      }
    }
    assert ring == Tokens(nodes, count, pos);
    ring := SortBy(ring, TokenBefore);
  }

  /** The first token at or after the key, wrapping to the start of the ring. */
  function RingStart(ring: seq<Token>, keyPos: u64): (start: nat)
    ensures ring != [] ==> start < |ring|
  {
    var idx := CountBelow(ring, keyPos);
    if idx >= |ring| then 0 else idx
  }

  function CountBelow(ring: seq<Token>, keyPos: u64): (count: nat)
    ensures count <= |ring|
  {
    if ring == [] || ring[0].pos >= keyPos then 0 else 1 + CountBelow(ring[1..], keyPos)
  }

  function Walk(ring: seq<Token>, start: nat): seq<Token>
    requires start <= |ring|
  {
    ring[start..] + ring[..start]
  }

  function Owners(tokens: seq<Token>): seq<NodeId> {
    if tokens == [] then [] else [tokens[0].owner] + Owners(tokens[1..])
  }

  /** The elements of `s` that are not in `seen`, each where it first occurs. */
  function Dedup(s: seq<NodeId>, seen: set<NodeId>): seq<NodeId> {
    if s == [] then []
    else if s[0] in seen then Dedup(s[1..], seen)
    else [s[0]] + Dedup(s[1..], seen + {s[0]})
  }

  function Preference(nodes: seq<NodeId>, count: nat, pos: Positions, keyPos: u64): seq<NodeId> {
    var ring := Ring(nodes, count, pos);
    if ring == [] then [] else Dedup(Owners(Walk(ring, RingStart(ring, keyPos))), {})
  }

  function HyperSpaceLocate(nodes: seq<NodeId>, tokensPerNode: nat, replicas: nat, pos: Positions, keyPos: u64): Option<Decision> {
    var count := Max(tokensPerNode, 1);
    var ring := Ring(nodes, count, pos);
    var chosen := First(Preference(nodes, count, pos, keyPos), Desired(replicas, |nodes|));
    if ring == [] || chosen == [] then None
    else Some(Decision(RingStart(ring, keyPos), |ring|, chosen[0], chosen))
  }

  lemma {:induction false} OwnersAt(tokens: seq<Token>, i: nat)
    requires i <= |tokens|
    ensures |Owners(tokens)| == |tokens|
    ensures Owners(tokens[i..]) == Owners(tokens)[i..]
    ensures i < |tokens| ==> Owners(tokens)[i] == tokens[i].owner
  {
    if i == 0 {
      assert tokens[0..] == tokens;
      if tokens != [] { OwnersAt(tokens[1..], 0); }
    } else {
      OwnersAt(tokens[1..], i - 1);
      assert tokens[1..][i - 1..] == tokens[i..];
    }
  }

  /** Position `offset` of the walk, reached by counting around the ring. */
  lemma WalkAt(ring: seq<Token>, start: nat, offset: nat)
    requires start < |ring| && offset < |ring|
    ensures |Owners(Walk(ring, start))| == |ring|
    ensures Owners(Walk(ring, start))[offset] == ring[(start + offset) % |ring|].owner
  {
    WrapOnce(start + offset, |ring|);
    OwnersAt(Walk(ring, start), offset);
  }

  /** The source's walk: it stops as soon as it has enough different owners. */
  method WalkRing(ring: seq<Token>, start: nat, desired: nat) returns (chosen: seq<NodeId>)
    requires start < |ring| && desired > 0
    ensures chosen == First(Dedup(Owners(Walk(ring, start)), {}), desired)
  {
    ghost var owners := Owners(Walk(ring, start));
    WalkAt(ring, start, 0);
    var seen: set<NodeId> := {};
    chosen := [];
    var offset := 0;
    while offset < |ring|
      invariant offset <= |ring| && |chosen| < desired
      invariant Dedup(owners, {}) == chosen + Dedup(owners[offset..], seen)
    {
      WalkAt(ring, start, offset);
      var owner := ring[(start + offset) % |ring|].owner;
      assert owners[offset..] == [owner] + owners[offset + 1..];
      offset := offset + 1;
      if owner !in seen {
        ghost var rest := Dedup(owners[offset..], seen + {owner});
        assert chosen + ([owner] + rest) == (chosen + [owner]) + rest;
        seen := seen + {owner};
        chosen := chosen + [owner];
        if |chosen| == desired {
          return;
        }
      }
    }
  }

  method LocateOnRing(nodes: seq<NodeId>, tokensPerNode: nat, replicas: nat, pos: Positions, keyPos: u64) returns (d: Option<Decision>)
    ensures d == HyperSpaceLocate(nodes, tokensPerNode, replicas, pos, keyPos)
  {
    var ring := BuildRing(nodes, tokensPerNode, pos);
    if ring == [] {
      return None;
    }
    var start := RingStart(ring, keyPos);
    WalkAt(ring, start, 0);
    var chosen := WalkRing(ring, start, Desired(replicas, |nodes|));
    d := Some(Decision(start, |ring|, chosen[0], chosen));
  }

  // ------------------------------------------------------ what the ring guarantees

  function OwnedByOthers(n: NodeId): Token -> bool { (t: Token) => t.owner != n }

  function AtOrAfter(keyPos: u64): Token -> bool { (t: Token) => t.pos >= keyPos }

  function Below(keyPos: u64): Token -> bool { (t: Token) => t.pos < keyPos }

  lemma {:induction false} TokensOfOwner(owner: NodeId, from: nat, count: nat, pos: Positions)
    ensures forall t :: t in TokensOf(owner, from, count, pos) ==> t.owner == owner && t.index >= from
    ensures Distinct(TokensOf(owner, from, count, pos))
    ensures from < count ==> TokensOf(owner, from, count, pos) != []
    ensures Filter(TokensOf(owner, from, count, pos), OwnedByOthers(owner)) == []
    ensures forall n :: n != owner ==> Filter(TokensOf(owner, from, count, pos), OwnedByOthers(n)) == TokensOf(owner, from, count, pos)
    decreases count - from
  {
    if from < count { TokensOfOwner(owner, from + 1, count, pos); }
  }

  lemma {:induction false} TokensOfNodes(nodes: seq<NodeId>, count: nat, pos: Positions)
    requires Distinct(nodes) && count > 0
    ensures Distinct(Tokens(nodes, count, pos))
    ensures forall t :: t in Tokens(nodes, count, pos) ==> t.owner in nodes
    ensures forall n :: n in nodes ==> exists t :: t in Tokens(nodes, count, pos) && t.owner == n
  {
    if nodes != [] {
      assert nodes[0] !in nodes[1..] && nodes == [nodes[0]] + nodes[1..];
      TokensOfOwner(nodes[0], 0, count, pos);
      TokensOfNodes(nodes[1..], count, pos);
      assert TokensOf(nodes[0], 0, count, pos)[0] in Tokens(nodes, count, pos);
      forall n | n in nodes ensures exists t :: t in Tokens(nodes, count, pos) && t.owner == n {
        if n != nodes[0] {
          var t :| t in Tokens(nodes[1..], count, pos) && t.owner == n;
          assert t in Tokens(nodes, count, pos);
        }
      }
    }
  }

  lemma {:induction false} TokensWithout(nodes: seq<NodeId>, n: NodeId, count: nat, pos: Positions)
    ensures Tokens(Filter(nodes, Others(n)), count, pos) == Filter(Tokens(nodes, count, pos), OwnedByOthers(n))
  {
    if nodes != [] {
      TokensOfOwner(nodes[0], 0, count, pos);
      TokensWithout(nodes[1..], n, count, pos);
      FilterConcat(TokensOf(nodes[0], 0, count, pos), Tokens(nodes[1..], count, pos), OwnedByOthers(n));
    }
  }

  lemma {:induction false} SplitAtKey(ring: seq<Token>, keyPos: u64)
    requires forall i, j :: 0 <= i < j < |ring| ==> ring[i].pos <= ring[j].pos
    ensures Filter(ring, AtOrAfter(keyPos)) == ring[CountBelow(ring, keyPos)..]
    ensures Filter(ring, Below(keyPos)) == ring[..CountBelow(ring, keyPos)]
  {
    if ring != [] {
      SplitAtKey(ring[1..], keyPos);
      if ring[0].pos >= keyPos {
        assert CountBelow(ring[1..], keyPos) == 0;
        assert ring == [ring[0]] + ring[1..];
      }
    }
  }

  /** The walk visits the tokens from the key on, then those before it. */
  lemma WalkIsSplit(ring: seq<Token>, keyPos: u64)
    requires SortedBy(ring, TokenBefore) && ring != []
    ensures Walk(ring, RingStart(ring, keyPos)) == Filter(ring, AtOrAfter(keyPos)) + Filter(ring, Below(keyPos))
  {
    assert forall i, j :: 0 <= i < j < |ring| ==> TokenBefore(ring[i], ring[j]);
    SplitAtKey(ring, keyPos);
  }

  lemma {:induction false} OwnersOfFilter(tokens: seq<Token>, n: NodeId)
    ensures Owners(Filter(tokens, OwnedByOthers(n))) == Filter(Owners(tokens), Others(n))
  {
    if tokens != [] { OwnersOfFilter(tokens[1..], n); }
  }

  lemma {:induction false} OwnersMembers(tokens: seq<Token>)
    ensures forall n :: n in Owners(tokens) <==> exists t :: t in tokens && t.owner == n
  {
    if tokens != [] {
      OwnersMembers(tokens[1..]);
      assert tokens == [tokens[0]] + tokens[1..];
    }
  }

  lemma {:induction false} DedupOfFilter(s: seq<NodeId>, n: NodeId, a: set<NodeId>, b: set<NodeId>)
    requires a - {n} == b - {n}
    ensures Dedup(Filter(s, Others(n)), a) == Filter(Dedup(s, b), Others(n))
  {
    if s != [] {
      assert s[0] != n ==> (s[0] in a <==> s[0] in a - {n}) && (s[0] in b <==> s[0] in b - {n});
      if s[0] == n || s[0] in a {
        DedupOfFilter(s[1..], n, a, if s[0] in b then b else b + {s[0]});
      } else {
        assert (a + {s[0]}) - {n} == (a - {n}) + {s[0]} && (b + {s[0]}) - {n} == (b - {n}) + {s[0]};
        DedupOfFilter(s[1..], n, a + {s[0]}, b + {s[0]});
      }
    }
  }

  lemma {:induction false} DedupDistinct(s: seq<NodeId>, seen: set<NodeId>)
    ensures Distinct(Dedup(s, seen))
    ensures forall n :: n in Dedup(s, seen) <==> n in s && n !in seen
  {
    if s != [] {
      assert s == [s[0]] + s[1..];
      DedupDistinct(s[1..], if s[0] in seen then seen else seen + {s[0]});
    }
  }

  lemma RingIsSorted(nodes: seq<NodeId>, count: nat, pos: Positions)
    requires Distinct(nodes) && count > 0
    ensures SortedBy(Ring(nodes, count, pos), TokenBefore)
    ensures forall t :: t in Ring(nodes, count, pos) <==> t in Tokens(nodes, count, pos)
    ensures Ring(nodes, count, pos) == [] <==> nodes == []
  {
    TokensOfNodes(nodes, count, pos);
    SortBySorts(Tokens(nodes, count, pos), TokenBefore);
    if nodes != [] {
      TokensOfOwner(nodes[0], 0, count, pos);
      assert nodes[0] in nodes;
    }
  }

  /** The preference list of a key holds every node once. */
  lemma PreferenceHoldsAll(nodes: seq<NodeId>, count: nat, pos: Positions, keyPos: u64)
    requires Distinct(nodes) && count > 0
    ensures Distinct(Preference(nodes, count, pos, keyPos))
    ensures forall n :: n in Preference(nodes, count, pos, keyPos) <==> n in nodes
    ensures |Preference(nodes, count, pos, keyPos)| == |nodes|
  {
    RingIsSorted(nodes, count, pos);
    var ring := Ring(nodes, count, pos);
    if ring != [] {
      var walk := Walk(ring, RingStart(ring, keyPos));
      WalkHoldsRing(ring, RingStart(ring, keyPos));
      OwnersMembers(walk);
      DedupDistinct(Owners(walk), {});
      TokensOfNodes(nodes, count, pos);
      forall n ensures n in Owners(walk) <==> n in nodes {
        if n in nodes {
          var t :| t in Tokens(nodes, count, pos) && t.owner == n;
          assert t in walk;
        }
      }
    }
    SameMembersSameLength(Preference(nodes, count, pos, keyPos), nodes);
  }

  lemma WalkHoldsRing(ring: seq<Token>, start: nat)
    requires start <= |ring|
    ensures forall t :: t in Walk(ring, start) <==> t in ring
  {
    assert ring == ring[..start] + ring[start..];
  }

  lemma {:induction false} SameMembersSameLength(a: seq<NodeId>, b: seq<NodeId>)
    requires Distinct(a) && Distinct(b) && forall n :: n in a <==> n in b
    ensures |a| == |b|
  {
    assert b == [] || b[0] in b;
    if a != [] {
      assert a[0] in a && a[0] in b && a[0] !in a[1..] && a == [a[0]] + a[1..];
      var i :| 0 <= i < |b| && b[i] == a[0];
      var rest := Filter(b, Others(a[0]));
      FilterOne(b, i);
      FilterKeeps(b, Others(a[0]), Outranks(m => 0));
      SameMembersSameLength(a[1..], rest);
    }
  }

  /** A node that leaves the ring leaves the preference lists and nothing else
      about them changes. */
  lemma PreferenceWithout(nodes: seq<NodeId>, n: NodeId, count: nat, pos: Positions, keyPos: u64)
    requires Distinct(nodes) && count > 0
    ensures Preference(Filter(nodes, Others(n)), count, pos, keyPos) == Filter(Preference(nodes, count, pos, keyPos), Others(n))
  {
    var rest := Filter(nodes, Others(n));
    var ring, ring2 := Ring(nodes, count, pos), Ring(rest, count, pos);
    var keep := OwnedByOthers(n);
    FilterKeeps(nodes, Others(n), Outranks(m => 0));
    RingIsSorted(nodes, count, pos);
    RingIsSorted(rest, count, pos);
    TokensOfNodes(nodes, count, pos);
    TokensWithout(nodes, n, count, pos);
    SortOfFilter(Tokens(nodes, count, pos), keep, TokenBefore);
    assert ring2 == Filter(ring, keep);
    if ring != [] {
      var walk := Walk(ring, RingStart(ring, keyPos));
      WalkWithout(ring, n, keyPos);
      OwnersOfFilter(walk, n);
      DedupOfFilter(Owners(walk), n, {}, {});
    }
  }

  lemma WalkWithout(ring: seq<Token>, n: NodeId, keyPos: u64)
    requires SortedBy(ring, TokenBefore) && ring != []
    ensures var rest := Filter(ring, OwnedByOthers(n));
      Filter(Walk(ring, RingStart(ring, keyPos)), OwnedByOthers(n))
      == if rest == [] then [] else Walk(rest, RingStart(rest, keyPos))
  {
    var keep := OwnedByOthers(n);
    var rest := Filter(ring, keep);
    FilterKeeps(ring, keep, TokenBefore);
    WalkIsSplit(ring, keyPos);
    FilterConcat(Filter(ring, AtOrAfter(keyPos)), Filter(ring, Below(keyPos)), keep);
    FilterSwap(ring, AtOrAfter(keyPos), keep);
    FilterSwap(ring, Below(keyPos), keep);
    if rest != [] { WalkIsSplit(rest, keyPos); }
  }

  lemma HyperSpaceWellChosen(nodes: seq<NodeId>, tokensPerNode: nat, replicas: nat, pos: Positions, keyPos: u64)
    requires Distinct(nodes)
    ensures WellChosen(HyperSpaceLocate(nodes, tokensPerNode, replicas, pos, keyPos), nodes, replicas)
  {
    RingIsSorted(nodes, Max(tokensPerNode, 1), pos);
    PreferenceHoldsAll(nodes, Max(tokensPerNode, 1), pos, keyPos);
  }

  /** Every node puts its tokens, numbered from zero, where the hash says. */
  lemma {:induction false} TokensOfAre(owner: NodeId, from: nat, count: nat, pos: Positions)
    ensures forall t :: t in TokensOf(owner, from, count, pos) <==>
                        t.owner == owner && from <= t.index < count && t.pos == pos(owner, t.index)
    decreases count - from
  {
    if from < count { TokensOfAre(owner, from + 1, count, pos); }
  }

  ghost predicate IsToken(t: Token, nodes: seq<NodeId>, count: nat, pos: Positions) {
    t.owner in nodes && t.index < count && t.pos == pos(t.owner, t.index)
  }

  lemma RingTokens(nodes: seq<NodeId>, count: nat, pos: Positions)
    requires Distinct(nodes) && count > 0
    ensures forall t :: t in Ring(nodes, count, pos) <==> IsToken(t, nodes, count, pos)
  {
    RingIsSorted(nodes, count, pos);
    TokensMembers(nodes, count, pos);
    forall t ensures t in Tokens(nodes, count, pos) <==> IsToken(t, nodes, count, pos) {
      TokensOfAre(t.owner, 0, count, pos);
    }
  }

  /** Going up from the key and around the ring, `t` is met no later than `u`. */
  predicate MetFirst(t: Token, u: Token, keyPos: u64) {
    if (t.pos >= keyPos) == (u.pos >= keyPos)
    then t.pos < u.pos || (t.pos == u.pos && (t.owner < u.owner || (t.owner == u.owner && t.index <= u.index)))
    else t.pos >= keyPos
  }

  /** The primary owns the token met first. */
  lemma HyperSpacePrimary(nodes: seq<NodeId>, tokensPerNode: nat, replicas: nat, pos: Positions, keyPos: u64)
    requires Distinct(nodes) && nodes != []
    ensures var d, count := HyperSpaceLocate(nodes, tokensPerNode, replicas, pos, keyPos), Max(tokensPerNode, 1);
      d.Some? && exists t ::
        && IsToken(t, nodes, count, pos) && d.value.primary == t.owner
        && forall u :: IsToken(u, nodes, count, pos) ==> MetFirst(t, u, keyPos)
  {
    var count := Max(tokensPerNode, 1);
    var ring := Ring(nodes, count, pos);
    RingIsSorted(nodes, count, pos);
    RingTokens(nodes, count, pos);
    var start := RingStart(ring, keyPos);
    var t := ring[start];
    WalkAt(ring, start, 0);
    WrapOnce(start, |ring|);
    FirstOwner(Owners(Walk(ring, start)));
    CountedBelow(ring, keyPos);
    HyperSpaceWellChosen(nodes, tokensPerNode, replicas, pos, keyPos);
    assert t in ring;
    forall u | IsToken(u, nodes, count, pos) ensures MetFirst(t, u, keyPos) {
      var i :| 0 <= i < |ring| && ring[i] == u;
      StartIsMetFirst(ring, i, keyPos);
    }
  }

  lemma FirstOwner(owners: seq<NodeId>)
    requires owners != []
    ensures Dedup(owners, {}) != [] && Dedup(owners, {})[0] == owners[0]
  {
  }

  lemma {:induction false} CountedBelow(ring: seq<Token>, keyPos: u64)
    requires forall i, j :: 0 <= i < j < |ring| ==> ring[i].pos <= ring[j].pos
    ensures forall i :: 0 <= i < |ring| ==> (ring[i].pos < keyPos <==> i < CountBelow(ring, keyPos))
  {
    if ring != [] && ring[0].pos < keyPos {
      CountedBelow(ring[1..], keyPos);
      forall i | 1 <= i < |ring| ensures ring[i].pos < keyPos <==> i < CountBelow(ring, keyPos) {
        assert ring[i] == ring[1..][i - 1];
      }
    }
  }

  lemma StartIsMetFirst(ring: seq<Token>, i: nat, keyPos: u64)
    requires SortedBy(ring, TokenBefore) && i < |ring|
    requires forall k :: 0 <= k < |ring| ==> (ring[k].pos < keyPos <==> k < CountBelow(ring, keyPos))
    ensures MetFirst(ring[RingStart(ring, keyPos)], ring[i], keyPos)
  {
    var start := RingStart(ring, keyPos);
    if start < i { assert TokenBefore(ring[start], ring[i]); }
    if i < start { assert TokenBefore(ring[i], ring[start]); }
  }

  lemma HyperSpaceIgnoresOrder(a: seq<NodeId>, b: seq<NodeId>, tokensPerNode: nat, replicas: nat, pos: Positions, keyPos: u64)
    requires Distinct(a) && Distinct(b) && forall n :: n in a <==> n in b
    ensures HyperSpaceLocate(a, tokensPerNode, replicas, pos, keyPos) == HyperSpaceLocate(b, tokensPerNode, replicas, pos, keyPos)
  {
    var count := Max(tokensPerNode, 1);
    RingIsSorted(a, count, pos);
    RingIsSorted(b, count, pos);
    TokensMembers(a, count, pos);
    TokensMembers(b, count, pos);
    SortedUnique(Ring(a, count, pos), Ring(b, count, pos), TokenBefore);
    SameMembersSameLength(a, b);
  }

  lemma {:induction false} TokensMembers(nodes: seq<NodeId>, count: nat, pos: Positions)
    ensures forall t :: t in Tokens(nodes, count, pos) <==> t.owner in nodes && t in TokensOf(t.owner, 0, count, pos)
  {
    if nodes != [] {
      TokensMembers(nodes[1..], count, pos);
      TokensOfOwner(nodes[0], 0, count, pos);
      assert nodes == [nodes[0]] + nodes[1..];
    }
  }

  lemma HyperSpaceConsistent(nodes: seq<NodeId>, n: NodeId, tokensPerNode: nat, replicas: nat, pos: Positions, keyPos: u64)
    requires Distinct(nodes) && n in nodes && |nodes| > 1
    ensures HyperSpaceLocate(nodes, tokensPerNode, replicas, pos, keyPos).Some?
    ensures HyperSpaceLocate(Filter(nodes, Others(n)), tokensPerNode, replicas, pos, keyPos).Some?
    ensures MinimalChange(HyperSpaceLocate(nodes, tokensPerNode, replicas, pos, keyPos).value.replicas,
                          HyperSpaceLocate(Filter(nodes, Others(n)), tokensPerNode, replicas, pos, keyPos).value.replicas, n)
  {
    hide Filter, Preference, MinimalChange, Ring, WellChosen, Distinct;
    var count := Max(tokensPerNode, 1);
    var i :| 0 <= i < |nodes| && nodes[i] == n;
    FilterOne(nodes, i);
    FilterKeeps(nodes, Others(n), Outranks(m => 0));
    PreferenceHoldsAll(nodes, count, pos, keyPos);
    PreferenceWithout(nodes, n, count, pos, keyPos);
    HyperSpaceWellChosen(nodes, tokensPerNode, replicas, pos, keyPos);
    HyperSpaceWellChosen(Filter(nodes, Others(n)), tokensPerNode, replicas, pos, keyPos);
    PrefixChangesMinimally(Preference(nodes, count, pos, keyPos), n, replicas);
  }
}
