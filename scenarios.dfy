/** Concrete groups that show what the job as written does and does not guarantee: with the
    source's N = 5 every edge below reaches the group keyed (1, 2, 3), so that group's reducer sees
    them all, and a triangle on the nodes 1, 2, 3 can only be found there. */
module Scenarios {
  import opened Graph
  import M = TriangleMapper
  import R = TriangleReducer

  /** The key of the group that buckets 1, 2 and 3 meet in. */
  const Key123 := M.GroupKey(1, 2, 3)

  /** Every edge of `edges` is written `lo#hi` and the mapper emits it under (1, 2, 3), so the
      group of that key holds all of them. */
  predicate ReachesKey123(edges: set<Edge>)
  {
    forall e :: e in edges ==> e.left < e.right && M.EmittedUnder(M.N, e.left, e.right, Key123)
  }

  // ---------------------------------------------------------------------------------------------
  // A single triangle whose three nodes are heavy: written once, by the heavy step.

  const Single: set<Edge> := {Edge(1, 2), Edge(2, 3), Edge(1, 3)}

  /** All of its edges reach the group (1, 2, 3). */
  lemma SingleReachesKey123()
    ensures ReachesKey123(Single)
  {
    Routed(1, 2);
    Routed(2, 3);
    Routed(1, 3);
  }

  lemma SingleTriangleFoundOnce()
    ensures forall t :: R.TriangleCount(Single, t) == if t == Triangle(1, 2, 3) then 1 else 0
  {
    SingleDegrees();
    forall t ensures R.TriangleCount(Single, t) == if t == Triangle(1, 2, 3) then 1 else 0
    {
      if Edge(t.first, t.third) in Single {
        assert R.Degree(Single, t.first) == R.Degree(Single, t.third);
      }
    }
  }

  lemma SingleDegrees()
    ensures R.Degree(Single, 1) == 2 && R.Degree(Single, 2) == 2 && R.Degree(Single, 3) == 2
    ensures R.Heavy(Single, 1) && R.Heavy(Single, 2) && R.Heavy(Single, 3)
  {
    assert R.CeilSqrt(3) == 2;
    DegreeIs(Single, 1, {Edge(1, 2), Edge(1, 3)});
    DegreeIs(Single, 2, {Edge(1, 2), Edge(2, 3)});
    DegreeIs(Single, 3, {Edge(2, 3), Edge(1, 3)});
  }

  /** An edge `lo#hi` of non-negative nodes reaches (1, 2, 3) when its buckets are two of 1, 2, 3. */
  lemma Routed(lo: int, hi: int)
    requires 0 <= lo < hi
    requires lo % M.N in {1, 2, 3} && hi % M.N in {1, 2, 3} && lo % M.N != hi % M.N
    ensures M.EmittedUnder(M.N, lo, hi, Key123)
  {
  }

  /** The degree of a node given its edges. */
  lemma DegreeIs(edges: set<Edge>, x: int, incident: set<Edge>)
    requires Edge(x, x) !in edges
    requires R.Incident(edges, x) == incident
    ensures R.Degree(edges, x) == |incident|
  {
    R.DegreeCountsIncidentEdges(edges, x);
  }

  /** The three nodes of `t` are among 1, 2 and 3: this covers every ordering of the triangle. */
  predicate Within123(t: Triangle)
  {
    t.first in {1, 2, 3} && t.second in {1, 2, 3} && t.third in {1, 2, 3}
  }

  // ---------------------------------------------------------------------------------------------
  // One triangle written twice by the same reducer: the mixed step scans both `1#3` and `2#3`
  // from their lighter ends and finds the triangle from each.

  const Twice: set<Edge> := {Edge(1, 2), Edge(1, 3), Edge(2, 3), Edge(3, 6), Edge(3, 7)}

  /** All of its edges reach the group (1, 2, 3). */
  lemma TwiceReachesKey123()
    ensures ReachesKey123(Twice)
  {
    Routed(1, 2);
    Routed(1, 3);
    Routed(2, 3);
    Routed(3, 6);
    Routed(3, 7);
  }

  lemma TriangleWrittenTwice()
    ensures IsTriangleIn(Twice, Triangle(1, 2, 3))
    ensures R.TriangleCount(Twice, Triangle(1, 2, 3)) == 1
    ensures R.TriangleCount(Twice, Triangle(2, 1, 3)) == 1
  {
    TwiceDegrees();
  }

  lemma TwiceDegrees()
    ensures R.Degree(Twice, 1) == 2 && R.Degree(Twice, 2) == 2 && R.Degree(Twice, 3) == 4
    ensures !R.Heavy(Twice, 1) && !R.Heavy(Twice, 2)
  {
    assert R.CeilSqrt(5) == 3;
    DegreeIs(Twice, 1, {Edge(1, 2), Edge(1, 3)});
    DegreeIs(Twice, 2, {Edge(1, 2), Edge(2, 3)});
    DegreeIs(Twice, 3, {Edge(1, 3), Edge(2, 3), Edge(3, 6), Edge(3, 7)});
  }

  // ---------------------------------------------------------------------------------------------
  // A triangle no reducer writes: its nodes have equal degrees, so isSmaller rejects each of its
  // edges, and none of them is heavy. Only this group holds all three of its edges.

  const Tied: set<Edge> := {Edge(1, 2), Edge(1, 3), Edge(2, 3), Edge(6, 7), Edge(8, 11), Edge(12, 13)}

  /** All of its edges reach the group (1, 2, 3). */
  lemma TiedReachesKey123()
    ensures ReachesKey123(Tied)
  {
    Routed(1, 2);
    Routed(1, 3);
    Routed(2, 3);
    Routed(6, 7);
    Routed(8, 11);
    Routed(12, 13);
  }

  lemma TriangleMissedOnEqualDegrees()
    ensures IsTriangleIn(Tied, Triangle(1, 2, 3))
    ensures forall t :: Within123(t) ==> R.TriangleCount(Tied, t) == 0
  {
    TiedDegrees();
    forall t | Within123(t)
      ensures R.TriangleCount(Tied, t) == 0
    {
      TiedNode(t.first);
      TiedNode(t.third);
    }
  }

  lemma TiedNode(x: int)
    requires x in {1, 2, 3}
    ensures R.Degree(Tied, x) == 2 && !R.Heavy(Tied, x)
  {
    TiedDegrees();
  }

  lemma TiedDegrees()
    ensures R.Degree(Tied, 1) == 2 && R.Degree(Tied, 2) == 2 && R.Degree(Tied, 3) == 2
    ensures !R.Heavy(Tied, 1) && !R.Heavy(Tied, 2) && !R.Heavy(Tied, 3)
  {
    assert R.CeilSqrt(6) == 3;
    DegreeIs(Tied, 1, {Edge(1, 2), Edge(1, 3)});
    DegreeIs(Tied, 2, {Edge(1, 2), Edge(2, 3)});
    DegreeIs(Tied, 3, {Edge(1, 3), Edge(2, 3)});
  }

  // ---------------------------------------------------------------------------------------------
  // A triangle lost to the one-sided lookup: the mixed step scans `1#2` and meets the neighbour 3
  // of node 1, but looks up the text `3#2` while the edge is stored as `2#3`.

  const OneSided: set<Edge> := {Edge(1, 2), Edge(1, 3), Edge(2, 3), Edge(2, 8), Edge(6, 7)}

  /** All of its edges reach the group (1, 2, 3). */
  lemma OneSidedReachesKey123()
    ensures ReachesKey123(OneSided)
  {
    Routed(1, 2);
    Routed(1, 3);
    Routed(2, 3);
    Routed(2, 8);
    Routed(6, 7);
  }

  lemma TriangleMissedByOneSidedLookup()
    ensures IsTriangleIn(OneSided, Triangle(1, 2, 3))
    ensures forall t :: Within123(t) ==> R.TriangleCount(OneSided, t) == 0
  {
    OneSidedDegrees();
    forall t | Within123(t)
      ensures R.TriangleCount(OneSided, t) == 0
    {
      if Edge(t.first, t.third) == Edge(1, 2) {
        assert Edge(t.second, 2) in OneSided ==> t.second == 1;
      }
    }
  }

  /** Why: the scan of `1#2` runs (node 1 is light and of smaller degree) and 3 is a neighbour
      of node 1, but the text `3#2` is not among the edges. */
  lemma OneSidedScanMissesEdge()
    ensures !(R.Heavy(OneSided, 1) && R.Heavy(OneSided, 2))
    ensures R.Degree(OneSided, 1) < R.Degree(OneSided, 2)
    ensures R.Occurrences(OneSided, 1, 3) == 1 && Edge(3, 2) !in OneSided
  {
    OneSidedDegrees();
  }

  lemma OneSidedDegrees()
    ensures R.Degree(OneSided, 1) == 2 && R.Degree(OneSided, 2) == 3 && R.Degree(OneSided, 3) == 2
    ensures !R.Heavy(OneSided, 1) && !R.Heavy(OneSided, 3)
  {
    assert R.CeilSqrt(5) == 3;
    DegreeIs(OneSided, 1, {Edge(1, 2), Edge(1, 3)});
    DegreeIs(OneSided, 2, {Edge(1, 2), Edge(2, 3), Edge(2, 8)});
    DegreeIs(OneSided, 3, {Edge(1, 3), Edge(2, 3)});
  }

  // ---------------------------------------------------------------------------------------------
  // A triangle lost because only the left endpoint is ever scanned from: nodes 1 and 2 are heavy,
  // so `1#2` is left to the heavy step, which needs node 3 heavy too; `1#3` and `2#3` have their
  // lighter end on the right, so isSmaller(left, right) rejects them.

  const LeftOnly: set<Edge> := {Edge(1, 2), Edge(1, 3), Edge(2, 3), Edge(1, 8), Edge(2, 6)}

  /** All of its edges reach the group (1, 2, 3). */
  lemma LeftOnlyReachesKey123()
    ensures ReachesKey123(LeftOnly)
  {
    Routed(1, 2);
    Routed(1, 3);
    Routed(2, 3);
    Routed(1, 8);
    Routed(2, 6);
  }

  lemma LeftOnlyDegrees()
    ensures R.Degree(LeftOnly, 1) == 3 && R.Degree(LeftOnly, 2) == 3 && R.Degree(LeftOnly, 3) == 2
    ensures R.Heavy(LeftOnly, 1) && R.Heavy(LeftOnly, 2) && !R.Heavy(LeftOnly, 3)
  {
    assert R.CeilSqrt(5) == 3;
    DegreeIs(LeftOnly, 1, {Edge(1, 2), Edge(1, 3), Edge(1, 8)});
    DegreeIs(LeftOnly, 2, {Edge(1, 2), Edge(2, 3), Edge(2, 6)});
    DegreeIs(LeftOnly, 3, {Edge(1, 3), Edge(2, 3)});
  }

  lemma TriangleMissedOnLighterRightEnd()
    ensures IsTriangleIn(LeftOnly, Triangle(1, 2, 3))
    ensures forall t :: Within123(t) ==> R.TriangleCount(LeftOnly, t) == 0
  {
    LeftOnlyDegrees();
  }
}
