/** The edge bucketizer (src/main/java/TriangleMapper.java): every node is hashed to one of `n`
    buckets, and every edge is sent to each group of three buckets that holds its bucket pair. */
module TriangleMapper {
  import opened Graph
  import Text

  /** The bucket count compiled into the source; the operations below take it as `n`. */
  const N: int := 5

  /** The group key `(a, b, c)`; the job ships it as the text `KeyText(k)`. */
  datatype GroupKey = GroupKey(a: int, b: int, c: int)

  /** One `context.write(reduceKey, edge)` of the mapper. */
  datatype Emission = Emission(key: GroupKey, edge: Edge)

  /** A key the loops of `map` can reach: three increasing buckets below `n`. */
  predicate IsGroupKey(n: int, k: GroupKey)
  {
    0 <= k.a < k.b < k.c < n
  }

  /** The emission test of the loop body: the sorted bucket pair is one of the key's three pairs. */
  predicate Covers(k: GroupKey, lo: int, hi: int)
  {
    (lo == k.a && hi == k.b) || (lo == k.a && hi == k.c) || (lo == k.b && hi == k.c)
  }

  /** Lexicographic order on keys, the order in which the three nested loops visit them. */
  predicate KeyLess(k1: GroupKey, k2: GroupKey)
  {
    k1.a < k2.a || (k1.a == k2.a && (k1.b < k2.b || (k1.b == k2.b && k1.c < k2.c)))
  }

  /** hash: Java's `value % n`, whose remainder is truncated toward zero and so takes the sign of
      `value`; a negative node that is not a multiple of `n` gets a negative bucket. */
  function Hash(n: int, value: int): (h: int)
    requires n > 0
    ensures value >= 0 ==> 0 <= h < n
    ensures value < 0 ==> -n < h <= 0
    ensures value >= 0 ==> h == value % n
  {
    if value >= 0 then value % n else -((-value) % n)
  }

  /** The edge text's node order: the smaller identifier first. */
  function Canonical(firstNode: int, secondNode: int): (e: Edge)
    ensures e.left <= e.right
    ensures multiset{e.left, e.right} == multiset{firstNode, secondNode}
  {
    if firstNode > secondNode then Edge(secondNode, firstNode) else Edge(firstNode, secondNode)
  }

  /** The two endpoint buckets, smaller first. */
  function BucketPair(n: int, firstNode: int, secondNode: int): (p: (int, int))
    requires n > 0
    ensures p == Sorted(Hash(n, firstNode), Hash(n, secondNode))
  {
    var e := Canonical(firstNode, secondNode);
    var h1, h2 := Hash(n, e.left), Hash(n, e.right);
    if h1 > h2 then (h2, h1) else (h1, h2)
  }

  /** Two numbers, smaller first. */
  function Sorted(x: int, y: int): (int, int)
  {
    if x <= y then (x, y) else (y, x)
  }

  /** The edge (firstNode, secondNode) is sent to the group `k`. */
  predicate EmittedUnder(n: int, firstNode: int, secondNode: int, k: GroupKey)
    requires n > 0
  {
    var p := BucketPair(n, firstNode, secondNode);
    IsGroupKey(n, k) && Covers(k, p.0, p.1)
  }

  /** All keys holding the bucket pair (lo, hi). */
  function CoveringKeys(n: int, lo: int, hi: int): set<GroupKey>
  {
    set a, b, c | 0 <= a < b < c < n && Covers(GroupKey(a, b, c), lo, hi) :: GroupKey(a, b, c)
  }

  /** The key made of `lo < hi` and a third bucket, in increasing order. */
  function KeyWithThird(lo: int, hi: int, third: int): GroupKey
  {
    if third < lo then GroupKey(third, lo, hi)
    else if third < hi then GroupKey(lo, third, hi)
    else GroupKey(lo, hi, third)
  }

  /** What the innermost loop emits for the fixed `a` and `b`, from `c` on. */
  function EmitThirds(n: int, lo: int, hi: int, edge: Edge, a: int, b: int, c: int): seq<Emission>
    decreases n - c
  {
    if c >= n then []
    else (if Covers(GroupKey(a, b, c), lo, hi) then [Emission(GroupKey(a, b, c), edge)] else [])
         + EmitThirds(n, lo, hi, edge, a, b, c + 1)
  }

  /** What the middle loop emits for the fixed `a`, from `b` on. */
  function EmitSeconds(n: int, lo: int, hi: int, edge: Edge, a: int, b: int): seq<Emission>
    decreases n - b
  {
    if b >= n then []
    else EmitThirds(n, lo, hi, edge, a, b, b + 1) + EmitSeconds(n, lo, hi, edge, a, b + 1)
  }

  /** What the outer loop emits from `a` on. */
  function EmitFirsts(n: int, lo: int, hi: int, edge: Edge, a: int): seq<Emission>
    decreases n - a
  {
    if a >= n then []
    else EmitSeconds(n, lo, hi, edge, a, a + 1) + EmitFirsts(n, lo, hi, edge, a + 1)
  }

  /** The emissions already written, `out`, followed by those of the innermost loop from `c` on. */
  function RunThirds(n: int, lo: int, hi: int, edge: Edge, out: seq<Emission>, a: int, b: int,
                     c: int): seq<Emission>
    decreases n - c
  {
    if c >= n then out
    else RunThirds(n, lo, hi, edge,
                   out + (if Covers(GroupKey(a, b, c), lo, hi) then [Emission(GroupKey(a, b, c), edge)] else []),
                   a, b, c + 1)
  }

  /** `out` followed by the emissions of the middle loop from `b` on. */
  function RunSeconds(n: int, lo: int, hi: int, edge: Edge, out: seq<Emission>, a: int, b: int)
    : seq<Emission>
    decreases n - b
  {
    if b >= n then out
    else RunSeconds(n, lo, hi, edge, RunThirds(n, lo, hi, edge, out, a, b, b + 1), a, b + 1)
  }

  /** `out` followed by the emissions of the outer loop from `a` on. */
  function RunFirsts(n: int, lo: int, hi: int, edge: Edge, out: seq<Emission>, a: int): seq<Emission>
    decreases n - a
  {
    if a >= n then out
    else RunFirsts(n, lo, hi, edge, RunSeconds(n, lo, hi, edge, out, a, a + 1), a + 1)
  }

  lemma {:induction false} RunThirdsAppends(n: int, lo: int, hi: int, edge: Edge,
                                            out: seq<Emission>, a: int, b: int, c: int)
    ensures RunThirds(n, lo, hi, edge, out, a, b, c) == out + EmitThirds(n, lo, hi, edge, a, b, c)
    decreases n - c
  {
    if c < n {
      var k := GroupKey(a, b, c);
      var head := if Covers(k, lo, hi) then [Emission(k, edge)] else [];
      RunThirdsAppends(n, lo, hi, edge, out + head, a, b, c + 1);
      AppendAssoc(out, head, EmitThirds(n, lo, hi, edge, a, b, c + 1));
    }
  }

  lemma {:induction false} RunSecondsAppends(n: int, lo: int, hi: int, edge: Edge,
                                             out: seq<Emission>, a: int, b: int)
    ensures RunSeconds(n, lo, hi, edge, out, a, b) == out + EmitSeconds(n, lo, hi, edge, a, b)
    decreases n - b
  {
    if b < n {
      var thirds := EmitThirds(n, lo, hi, edge, a, b, b + 1);
      RunThirdsAppends(n, lo, hi, edge, out, a, b, b + 1);
      RunSecondsAppends(n, lo, hi, edge, out + thirds, a, b + 1);
      AppendAssoc(out, thirds, EmitSeconds(n, lo, hi, edge, a, b + 1));
    }
  }

  lemma {:induction false} RunFirstsAppends(n: int, lo: int, hi: int, edge: Edge,
                                            out: seq<Emission>, a: int)
    ensures RunFirsts(n, lo, hi, edge, out, a) == out + EmitFirsts(n, lo, hi, edge, a)
    decreases n - a
  {
    if a < n {
      var seconds := EmitSeconds(n, lo, hi, edge, a, a + 1);
      RunSecondsAppends(n, lo, hi, edge, out, a, a + 1);
      RunFirstsAppends(n, lo, hi, edge, out + seconds, a + 1);
      AppendAssoc(out, seconds, EmitFirsts(n, lo, hi, edge, a + 1));
    }
  }

  /** Everything `map` writes for the input line `firstNode secondNode`. */
  function Emissions(n: int, firstNode: int, secondNode: int): seq<Emission>
    requires n > 0
  {
    var p := BucketPair(n, firstNode, secondNode);
    EmitFirsts(n, p.0, p.1, Canonical(firstNode, secondNode), 0)
  }

  /** map (src/main/java/TriangleMapper.java:20-50) on an already parsed input line: swap the
      nodes, hash them, sort the hashes, then visit every key in lexicographic order and emit
      the edge under the keys that hold its bucket pair. */
  method Map(n: int, firstNode: int, secondNode: int) returns (out: seq<Emission>)
    requires n > 0
    ensures out == Emissions(n, firstNode, secondNode)
  {
    var first, second := firstNode, secondNode;
    if first > second {
      var tmp := first;
      first := second;
      second := tmp;
    }
    var firstHash, secondHash := Hash(n, first), Hash(n, second);
    if firstHash > secondHash {
      var tmp := firstHash;
      firstHash := secondHash;
      secondHash := tmp;
    }
    assert (firstHash, secondHash) == BucketPair(n, firstNode, secondNode);
    var edge := Edge(first, second);
    out := [];
    ghost var all := RunFirsts(n, firstHash, secondHash, edge, out, 0);
    var a := 0;
    while a < n
      invariant 0 <= a <= n
      invariant RunFirsts(n, firstHash, secondHash, edge, out, a) == all
    {
      var b := a + 1;
      while b < n
        invariant a + 1 <= b <= n
        invariant RunFirsts(n, firstHash, secondHash, edge,
                            RunSeconds(n, firstHash, secondHash, edge, out, a, b), a + 1) == all
      {
        var c := b + 1;
        while c < n
          invariant b + 1 <= c <= n
          invariant RunFirsts(n, firstHash, secondHash, edge,
                              RunSeconds(n, firstHash, secondHash, edge,
                                         RunThirds(n, firstHash, secondHash, edge, out, a, b, c),
                                         a, b + 1),
                              a + 1) == all
        {
          if (firstHash == a && secondHash == b)
             || (firstHash == a && secondHash == c)
             || (firstHash == b && secondHash == c) {
            var reduceKey := GroupKey(a, b, c);
            assert RunThirds(n, firstHash, secondHash, edge, out, a, b, c)
                   == RunThirds(n, firstHash, secondHash, edge, out + [Emission(reduceKey, edge)], a, b, c + 1);
            out := out + [Emission(reduceKey, edge)];
          } else {
            assert out + [] == out;
            assert RunThirds(n, firstHash, secondHash, edge, out, a, b, c)
                   == RunThirds(n, firstHash, secondHash, edge, out, a, b, c + 1);
          }
          c := c + 1;
        }
        b := b + 1;
      }
      a := a + 1;
    }
    RunFirstsAppends(n, firstHash, secondHash, edge, [], 0);
    assert [] + EmitFirsts(n, firstHash, secondHash, edge, 0) == Emissions(n, firstNode, secondNode);
  }

  /** Every emission of `map` is the canonical edge under a key holding its bucket pair, every
      such key is used, keys come in strictly increasing order (so none twice), and there are
      `n - 2` of them for two distinct in-range buckets and none otherwise. */
  lemma EmissionsFacts(n: int, firstNode: int, secondNode: int)
    requires n > 0
    ensures var out := Emissions(n, firstNode, secondNode);
            && (forall i :: 0 <= i < |out| ==>
                  out[i].edge == Canonical(firstNode, secondNode)
                  && EmittedUnder(n, firstNode, secondNode, out[i].key))
            && (forall k :: EmittedUnder(n, firstNode, secondNode, k) ==>
                  Emission(k, Canonical(firstNode, secondNode)) in out)
            && SortedKeys(out)
            && |out| == if 0 <= BucketPair(n, firstNode, secondNode).0
                             < BucketPair(n, firstNode, secondNode).1 then n - 2 else 0
  {
    var p := BucketPair(n, firstNode, secondNode);
    var edge := Canonical(firstNode, secondNode);
    var out := Emissions(n, firstNode, secondNode);
    FirstsFacts(n, p.0, p.1, edge, 0);
    KeysOfSorted(out);
    KeysOfEmissions(n, p.0, p.1, edge, out);
    CoveringKeysCount(n, p.0, p.1);
  }

  /** A run holding the edge under exactly the covering keys has those keys as its key set. */
  lemma KeysOfEmissions(n: int, lo: int, hi: int, edge: Edge, out: seq<Emission>)
    requires forall i :: 0 <= i < |out| ==> IsGroupKey(n, out[i].key) && Covers(out[i].key, lo, hi)
    requires forall k :: IsGroupKey(n, k) && Covers(k, lo, hi) ==> Emission(k, edge) in out
    ensures KeysOf(out) == CoveringKeys(n, lo, hi)
  {
    forall k | k in CoveringKeys(n, lo, hi) ensures k in KeysOf(out) {
      var i :| 0 <= i < |out| && out[i] == Emission(k, edge);
    }
    forall k | k in KeysOf(out) ensures k in CoveringKeys(n, lo, hi) {
      var i :| 0 <= i < |out| && out[i].key == k;
      assert k == GroupKey(k.a, k.b, k.c);
    }
  }

  lemma AppendAssoc(s: seq<Emission>, t: seq<Emission>, u: seq<Emission>)
    ensures s + t + u == s + (t + u)
  {
  }

  /** The input order of a line does not matter: `u v` and `v u` give the same emissions. */
  lemma EmissionsSymmetric(n: int, u: int, v: int)
    requires n > 0
    ensures Emissions(n, u, v) == Emissions(n, v, u)
    ensures Canonical(u, v) == Canonical(v, u)
  {
  }

  /** An edge whose endpoints share a bucket (a self-loop among them) is never written. */
  lemma SameBucketNeverEmitted(n: int, u: int, v: int)
    requires n > 0 && Hash(n, u) == Hash(n, v)
    ensures Emissions(n, u, v) == []
  {
    EmissionsFacts(n, u, v);
  }

  /** An edge with an endpoint in a negative bucket (a negative node that is not a multiple of
      `n`) is never written. */
  lemma NegativeBucketNeverEmitted(n: int, u: int, v: int)
    requires n > 0 && (Hash(n, u) < 0 || Hash(n, v) < 0)
    ensures Emissions(n, u, v) == []
  {
    EmissionsFacts(n, u, v);
  }

  /** The three edges of nodes in three distinct non-negative buckets all reach the group named by
      the sorted bucket triple. */
  lemma TriangleMeetsInGroup(n: int, x: int, y: int, z: int)
    requires n > 0
    requires Hash(n, x) >= 0 && Hash(n, y) >= 0 && Hash(n, z) >= 0
    requires Hash(n, x) != Hash(n, y) && Hash(n, y) != Hash(n, z) && Hash(n, x) != Hash(n, z)
    ensures var k := SortedKey(Hash(n, x), Hash(n, y), Hash(n, z));
            && IsGroupKey(n, k)
            && Emission(k, Canonical(x, y)) in Emissions(n, x, y)
            && Emission(k, Canonical(y, z)) in Emissions(n, y, z)
            && Emission(k, Canonical(x, z)) in Emissions(n, x, z)
  {
    var k := SortedKey(Hash(n, x), Hash(n, y), Hash(n, z));
    EmittedUnderIsEmitted(n, x, y, k);
    EmittedUnderIsEmitted(n, y, z, k);
    EmittedUnderIsEmitted(n, x, z, k);
  }

  /** A key that holds the edge's bucket pair receives the edge. */
  lemma EmittedUnderIsEmitted(n: int, u: int, v: int, k: GroupKey)
    requires n > 0 && EmittedUnder(n, u, v, k)
    ensures Emission(k, Canonical(u, v)) in Emissions(n, u, v)
  {
    EmissionsFacts(n, u, v);
  }

  /** No group other than the sorted bucket triple receives all three edges of such nodes, so a
      triangle is seen by at most one group. */
  lemma TriangleMeetsInOneGroup(n: int, x: int, y: int, z: int, k: GroupKey)
    requires n > 0
    requires Hash(n, x) != Hash(n, y) && Hash(n, y) != Hash(n, z) && Hash(n, x) != Hash(n, z)
    requires EmittedUnder(n, x, y, k) && EmittedUnder(n, y, z, k) && EmittedUnder(n, x, z, k)
    ensures k == SortedKey(Hash(n, x), Hash(n, y), Hash(n, z))
  {
  }

  /** The text `map` writes as the reduce key of `k` (src/main/java/TriangleMapper.java:44). */
  function KeyText(k: GroupKey): string
  {
    Text.MakeReducerHash(k.a, k.b, k.c)
  }

  /** With at most 10 buckets the key text names the group: two keys the loops can reach with
      the same text are the same key. */
  lemma KeyTextInjective(n: int, k1: GroupKey, k2: GroupKey)
    requires n <= 10 && IsGroupKey(n, k1) && IsGroupKey(n, k2)
    requires KeyText(k1) == KeyText(k2)
    ensures k1 == k2
  {
    Text.ReducerHashInjective(k1.a, k1.b, k1.c, k2.a, k2.b, k2.c);
  }

  /** With at most 10 buckets the reduce keys written for one input line are pairwise distinct
      texts, so the line reaches each of its groups once. */
  lemma EmittedKeyTextsDistinct(n: int, firstNode: int, secondNode: int)
    requires 0 < n <= 10
    ensures var out := Emissions(n, firstNode, secondNode);
            forall i, j :: 0 <= i < j < |out| ==> KeyText(out[i].key) != KeyText(out[j].key)
  {
    var out := Emissions(n, firstNode, secondNode);
    EmissionsFacts(n, firstNode, secondNode);
    forall i, j | 0 <= i < j < |out|
      ensures KeyText(out[i].key) != KeyText(out[j].key)
    {
      var ki, kj := out[i].key, out[j].key;
      assert KeyLess(ki, kj) && IsGroupKey(n, ki) && IsGroupKey(n, kj);
      if KeyText(ki) == KeyText(kj) {
        KeyTextInjective(n, ki, kj);
        assert false;
      }
    }
  }

  /** From 113 buckets on, two keys the loops reach share a text: (0, 1, 112) and (0, 11, 12)
      are both written "01112", so their groups would be merged by the shuffle. */
  lemma KeyTextCollidesFrom113(n: int)
    requires n >= 113
    ensures IsGroupKey(n, GroupKey(0, 1, 112)) && IsGroupKey(n, GroupKey(0, 11, 12))
    ensures KeyText(GroupKey(0, 1, 112)) == KeyText(GroupKey(0, 11, 12))
  {
    Text.ReducerHashCollidesBeyondDigits();
  }

  /** The key of three distinct buckets: the buckets in increasing order. */
  function SortedKey(h1: int, h2: int, h3: int): (k: GroupKey)
    requires h1 != h2 && h2 != h3 && h1 != h3
    ensures k.a < k.b < k.c
    ensures (h1 == k.a || h1 == k.b || h1 == k.c) && (h2 == k.a || h2 == k.b || h2 == k.c)
            && (h3 == k.a || h3 == k.b || h3 == k.c)
    ensures Covers(k, Sorted(h1, h2).0, Sorted(h1, h2).1)
            && Covers(k, Sorted(h2, h3).0, Sorted(h2, h3).1)
            && Covers(k, Sorted(h1, h3).0, Sorted(h1, h3).1)
  {
    if h1 < h2 then KeyWithThird(h1, h2, h3) else KeyWithThird(h2, h1, h3)
  }

  /** Keys strictly increase along the sequence. */
  predicate SortedKeys(s: seq<Emission>)
  {
    forall i, j :: 0 <= i < j < |s| ==> KeyLess(s[i].key, s[j].key)
  }

  /** The keys of a sequence of emissions. */
  function KeysOf(s: seq<Emission>): set<GroupKey>
  {
    set i | 0 <= i < |s| :: s[i].key
  }

  /** Strictly increasing keys are distinct, so there are as many keys as emissions. */
  lemma {:induction false} KeysOfSorted(s: seq<Emission>)
    requires SortedKeys(s)
    ensures |KeysOf(s)| == |s|
  {
    if s != [] {
      var t := s[1..];
      KeysOfSorted(t);
      assert KeysOf(s) == KeysOf(t) + {s[0].key} by {
        forall k | k in KeysOf(s) ensures k in KeysOf(t) + {s[0].key} {
          var i :| 0 <= i < |s| && s[i].key == k;
          if i > 0 { assert t[i - 1].key == k; }
        }
        forall k | k in KeysOf(t) ensures k in KeysOf(s) {
          var i :| 0 <= i < |t| && t[i].key == k;
          assert s[i + 1].key == k;
        }
      }
      assert s[0].key !in KeysOf(t) by {
        forall i | 0 <= i < |t| ensures t[i].key != s[0].key {
          assert KeyLess(s[0].key, s[i + 1].key);
        }
      }
    }
  }

  /** Sorted runs whose keys are all below the next run's keys concatenate to a sorted run. */
  lemma SortedAppend(s: seq<Emission>, t: seq<Emission>)
    requires SortedKeys(s) && SortedKeys(t)
    requires forall i, j :: 0 <= i < |s| && 0 <= j < |t| ==> KeyLess(s[i].key, t[j].key)
    ensures SortedKeys(s + t)
  {
  }

  lemma {:induction false} ThirdsFacts(n: int, lo: int, hi: int, edge: Edge, a: int, b: int, c: int)
    requires 0 <= a < b < c
    ensures var s := EmitThirds(n, lo, hi, edge, a, b, c);
            && (forall i :: 0 <= i < |s| ==>
                  s[i].edge == edge && s[i].key.a == a && s[i].key.b == b
                  && c <= s[i].key.c < n && Covers(s[i].key, lo, hi))
            && (forall k: GroupKey :: k.a == a && k.b == b && c <= k.c < n && Covers(k, lo, hi) ==>
                  Emission(k, edge) in s)
            && SortedKeys(s)
    decreases n - c
  {
    if c < n {
      ThirdsFacts(n, lo, hi, edge, a, b, c + 1);
      var k := GroupKey(a, b, c);
      var head := if Covers(k, lo, hi) then [Emission(k, edge)] else [];
      var rest := EmitThirds(n, lo, hi, edge, a, b, c + 1);
      SortedAppend(head, rest);
    }
  }

  lemma {:induction false} SecondsFacts(n: int, lo: int, hi: int, edge: Edge, a: int, b: int)
    requires 0 <= a < b
    ensures var s := EmitSeconds(n, lo, hi, edge, a, b);
            && (forall i :: 0 <= i < |s| ==>
                  s[i].edge == edge && s[i].key.a == a && b <= s[i].key.b < s[i].key.c < n
                  && Covers(s[i].key, lo, hi))
            && (forall k: GroupKey :: k.a == a && b <= k.b < k.c < n && Covers(k, lo, hi) ==>
                  Emission(k, edge) in s)
            && SortedKeys(s)
    decreases n - b
  {
    if b < n {
      ThirdsFacts(n, lo, hi, edge, a, b, b + 1);
      SecondsFacts(n, lo, hi, edge, a, b + 1);
      SortedAppend(EmitThirds(n, lo, hi, edge, a, b, b + 1), EmitSeconds(n, lo, hi, edge, a, b + 1));
    }
  }

  lemma {:induction false} FirstsFacts(n: int, lo: int, hi: int, edge: Edge, a: int)
    requires 0 <= a
    ensures var s := EmitFirsts(n, lo, hi, edge, a);
            && (forall i :: 0 <= i < |s| ==>
                  s[i].edge == edge && a <= s[i].key.a && IsGroupKey(n, s[i].key)
                  && Covers(s[i].key, lo, hi))
            && (forall k: GroupKey :: a <= k.a && IsGroupKey(n, k) && Covers(k, lo, hi) ==>
                  Emission(k, edge) in s)
            && SortedKeys(s)
    decreases n - a
  {
    if a < n {
      SecondsFacts(n, lo, hi, edge, a, a + 1);
      FirstsFacts(n, lo, hi, edge, a + 1);
      SortedAppend(EmitSeconds(n, lo, hi, edge, a, a + 1), EmitFirsts(n, lo, hi, edge, a + 1));
    }
  }

  /** The number of keys that hold a bucket pair: `n - 2` for two distinct buckets in range (one
      for each possible third bucket), none otherwise. */
  lemma CoveringKeysCount(n: int, lo: int, hi: int)
    requires lo <= hi < n
    ensures |CoveringKeys(n, lo, hi)| == if 0 <= lo < hi then n - 2 else 0
  {
    if 0 <= lo < hi {
      CoveringKeysByThird(n, lo, hi);
      KeysWithThirdsCount(lo, hi, n);
    } else {
      assert CoveringKeys(n, lo, hi) == {};
    }
  }

  /** The buckets below `m` other than `lo` and `hi`. */
  function Thirds(lo: int, hi: int, m: int): (s: set<int>)
    requires lo < hi
    ensures forall x :: x in s <==> 0 <= x < m && x != lo && x != hi
    ensures m >= 0 ==> |s| == m - (if 0 <= lo < m then 1 else 0) - (if 0 <= hi < m then 1 else 0)
    decreases if m < 0 then 0 else m
  {
    if m <= 0 then {}
    else Thirds(lo, hi, m - 1) + (if m - 1 != lo && m - 1 != hi then {m - 1} else {})
  }

  /** Each key holding the pair `lo < hi` is that pair plus one other bucket. */
  lemma CoveringKeysByThird(n: int, lo: int, hi: int)
    requires 0 <= lo < hi < n
    ensures CoveringKeys(n, lo, hi) == KeysWithThirds(lo, hi, Thirds(lo, hi, n))
  {
    var thirds := Thirds(lo, hi, n);
    forall k | k in CoveringKeys(n, lo, hi) ensures k in KeysWithThirds(lo, hi, thirds) {
      var x := if k.a != lo && k.a != hi then k.a else if k.b != lo && k.b != hi then k.b else k.c;
      assert x in thirds && k == KeyWithThird(lo, hi, x);
    }
    forall k | k in KeysWithThirds(lo, hi, thirds) ensures k in CoveringKeys(n, lo, hi) {
      var x :| x in thirds && k == KeyWithThird(lo, hi, x);
      assert k == GroupKey(k.a, k.b, k.c);
    }
  }

  /** The keys made of `lo < hi` and a bucket from `thirds`. */
  function KeysWithThirds(lo: int, hi: int, thirds: set<int>): set<GroupKey>
  {
    set x | x in thirds :: KeyWithThird(lo, hi, x)
  }

  /** Distinct third buckets give distinct keys. */
  lemma {:induction false} KeysWithThirdsCount(lo: int, hi: int, m: int)
    requires lo < hi
    ensures |KeysWithThirds(lo, hi, Thirds(lo, hi, m))| == |Thirds(lo, hi, m)|
    decreases if m < 0 then 0 else m
  {
    if m <= 0 {
      assert KeysWithThirds(lo, hi, Thirds(lo, hi, m)) == {};
    } else {
      KeysWithThirdsCount(lo, hi, m - 1);
      KeysWithThirdsStep(lo, hi, m);
    }
  }

  lemma KeysWithThirdsStep(lo: int, hi: int, m: int)
    requires lo < hi && m > 0
    ensures var extra := if m - 1 != lo && m - 1 != hi then 1 else 0;
            && |Thirds(lo, hi, m)| == |Thirds(lo, hi, m - 1)| + extra
            && |KeysWithThirds(lo, hi, Thirds(lo, hi, m))|
               == |KeysWithThirds(lo, hi, Thirds(lo, hi, m - 1))| + extra
  {
    var last := m - 1;
    if last != lo && last != hi {
      assert Thirds(lo, hi, m) == Thirds(lo, hi, m - 1) + {last};
      KeysWithThirdsGrow(lo, hi, Thirds(lo, hi, m - 1), last);
    } else {
      assert Thirds(lo, hi, m) == Thirds(lo, hi, m - 1);
    }
  }

  lemma KeysWithThirdsGrow(lo: int, hi: int, thirds: set<int>, y: int)
    requires lo < hi && y !in thirds && y != lo && y != hi
    requires forall x :: x in thirds ==> x != lo && x != hi
    ensures KeysWithThirds(lo, hi, thirds + {y}) == KeysWithThirds(lo, hi, thirds) + {KeyWithThird(lo, hi, y)}
    ensures KeyWithThird(lo, hi, y) !in KeysWithThirds(lo, hi, thirds)
  {
  }
}
