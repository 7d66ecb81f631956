/** The per-group triangle finder (src/main/java/TriangleReducer.java): it deduplicates the edges
    of one group, records each node's degree and neighbours, lists the triangles of heavy-hitter
    nodes by brute force, then scans each remaining edge `left#right` whose left endpoint has
    strictly smaller degree, walking the left endpoint's neighbour list. */
module TriangleReducer {
  import opened Graph

  // ---------------------------------------------------------------------------------------------
  // The local graph of a group, described from its edge set alone.

  /** The nodes that occur in some edge. */
  ghost function Nodes(edges: set<Edge>): set<int>
  {
    (set e | e in edges :: e.left) + (set e | e in edges :: e.right)
  }

  /** The number of edges with `x` as an endpoint, the edge `x#x` counting once per side. */
  ghost function Degree(edges: set<Edge>, x: int): nat
  {
    |LeftAt(edges, x)| + |RightAt(edges, x)|
  }

  /** The edges whose left endpoint is `x`. */
  ghost function LeftAt(edges: set<Edge>, x: int): set<Edge>
  {
    set e | e in edges && e.left == x
  }

  /** The edges whose right endpoint is `x`. */
  ghost function RightAt(edges: set<Edge>, x: int): set<Edge>
  {
    set e | e in edges && e.right == x
  }

  /** The edges with `x` as an endpoint. */
  ghost function Incident(edges: set<Edge>, x: int): set<Edge>
  {
    set e | e in edges && (e.left == x || e.right == x)
  }

  /** How often `w` is recorded as a neighbour of `x`: once for `x#w` and once for `w#x`. */
  ghost function Occurrences(edges: set<Edge>, x: int, w: int): nat
  {
    (if Edge(x, w) in edges then 1 else 0) + (if Edge(w, x) in edges then 1 else 0)
  }

  /** A heavy hitter of the group. */
  ghost predicate Heavy(edges: set<Edge>, x: int)
  {
    IsHeavyHitterNode(|edges|, Degree(edges, x))
  }

  /** How often the heavy step writes `t`: once for increasing heavy nodes joined by the three
      edges `first#second`, `second#third` and `first#third`. */
  ghost function HeavyCount(edges: set<Edge>, t: Triangle): nat
  {
    if t.first < t.second < t.third
       && Heavy(edges, t.first) && Heavy(edges, t.second) && Heavy(edges, t.third)
       && Edge(t.first, t.second) in edges && Edge(t.second, t.third) in edges
       && Edge(t.first, t.third) in edges
    then 1 else 0
  }

  /** How often the mixed step writes `t = (l, w, r)`: when it scans the edge `l#r` (not both
      endpoints heavy, `l` of strictly smaller degree) and finds `w#r`, once for every time `w`
      stands in `l`'s neighbour list. */
  ghost function MixedCount(edges: set<Edge>, t: Triangle): nat
  {
    var l, w, r := t.first, t.second, t.third;
    if Edge(l, r) in edges && (!Heavy(edges, l) || !Heavy(edges, r))
       && Degree(edges, l) < Degree(edges, r) && Edge(w, r) in edges
    then Occurrences(edges, l, w) else 0
  }

  /** How often `reduce` writes `t` for a group whose deduplicated edge set is `edges`. */
  ghost function TriangleCount(edges: set<Edge>, t: Triangle): nat
  {
    HeavyCount(edges, t) + MixedCount(edges, t)
  }

  /** The edge set `reduce` builds from the values of its group: each distinct edge once. */
  ghost function Dedup(values: seq<Edge>): set<Edge>
  {
    set e | e in values
  }

  // ---------------------------------------------------------------------------------------------
  // The heavy-hitter threshold.

  /** isHeavyHitterNode (src/main/java/TriangleReducer.java:52-54): `degree >= sqrt(edgeCount)`.
      A node is heavy exactly when its degree is non-negative and its square reaches the edge
      count, equality included. */
  function IsHeavyHitterNode(edgeCount: nat, nodeDegree: int): (heavy: bool)
    ensures heavy <==> nodeDegree >= 0 && nodeDegree * nodeDegree >= edgeCount
  {
    CeilSqrtIsThreshold(edgeCount, nodeDegree);
    nodeDegree >= CeilSqrt(edgeCount)
  }

  /** The least natural number whose square reaches `m`: the square root of `m`, rounded up. */
  function CeilSqrt(m: nat): (r: nat)
    ensures r * r >= m
    ensures r == 0 || (r - 1) * (r - 1) < m
  {
    CeilSqrtFrom(m, 0)
  }

  function CeilSqrtFrom(m: nat, r: nat): (s: nat)
    requires r == 0 || (r - 1) * (r - 1) < m
    ensures s >= r && s * s >= m
    ensures s == 0 || (s - 1) * (s - 1) < m
    decreases m - r
  {
    if r * r >= m then r
    else
      assert r <= r * r;
      CeilSqrtFrom(m, r + 1)
  }

  /** An integer is at least the square root of `m` exactly when it is at least that root
      rounded up, that is, when it is non-negative and its square reaches `m`. */
  lemma CeilSqrtIsThreshold(m: nat, d: int)
    ensures d >= CeilSqrt(m) <==> d >= 0 && d * d >= m
  {
    var r := CeilSqrt(m);
    if d >= r {
      assert d * d >= r * r by {
        MulMono(r, d);
      }
    } else if d >= 0 {
      assert d * d <= (r - 1) * (r - 1) by {
        MulMono(d, r - 1);
      }
    }
  }

  lemma MulMono(x: nat, y: nat)
    requires x <= y
    ensures x * x <= y * y
  {
    assert x * x <= x * y <= y * y;
  }

  // ---------------------------------------------------------------------------------------------
  // The group state and the steps of `reduce`.

  /** The degree recorded for `node`, zero when it has no entry (Java's `null`). */
  function CountIn(degrees: map<int, int>, node: int): int
  {
    if node in degrees then degrees[node] else 0
  }

  /** The neighbour list recorded for `node`, empty when it has no entry. */
  function ListIn(neighbours: map<int, seq<int>>, node: int): seq<int>
  {
    if node in neighbours then neighbours[node] else []
  }

  /** `degrees` and `neighbours` are `degrees0` and `neighbours0` with the edges `done` recorded. */
  ghost predicate Extends(degrees0: map<int, int>, neighbours0: map<int, seq<int>>, done: set<Edge>,
                          degrees: map<int, int>, neighbours: map<int, seq<int>>)
  {
    KeysExtend(degrees0.Keys, done, degrees.Keys) && KeysExtend(neighbours0.Keys, done, neighbours.Keys)
    && DegreesExtend(degrees0, done, degrees)
    && LengthsExtend(neighbours0, done, neighbours)
    && ListsExtend(neighbours0, done, neighbours)
  }

  /** The recorded nodes are the old ones and the endpoints of `done`. */
  ghost predicate KeysExtend(keys0: set<int>, done: set<Edge>, keys: set<int>)
  {
    forall x: int :: x in keys <==> x in keys0 || x in Nodes(done)
  }

  /** Every node's degree grew by its degree in `done`. */
  ghost predicate DegreesExtend(degrees0: map<int, int>, done: set<Edge>, degrees: map<int, int>)
  {
    forall x :: CountIn(degrees, x) == CountIn(degrees0, x) + Degree(done, x)
  }

  /** Every node's neighbour list grew by its degree in `done`. */
  ghost predicate LengthsExtend(neighbours0: map<int, seq<int>>, done: set<Edge>, neighbours: map<int, seq<int>>)
  {
    forall x :: |ListIn(neighbours, x)| == |ListIn(neighbours0, x)| + Degree(done, x)
  }

  /** `w` joined `x`'s list once for `x#w` and once for `w#x` in `done`. */
  ghost predicate ListsExtend(neighbours0: map<int, seq<int>>, done: set<Edge>, neighbours: map<int, seq<int>>)
  {
    forall x, w :: multiset(ListIn(neighbours, x))[w]
                   == multiset(ListIn(neighbours0, x))[w] + Occurrences(done, x, w)
  }

  /** The two maps `reduce` fills: node to degree and node to neighbour list. */
  class GroupMaps {
    var nodeDegrees: map<int, int>
    var nodeNeighbours: map<int, seq<int>>

    constructor ()
      ensures nodeDegrees == map[] && nodeNeighbours == map[]
    {
      nodeDegrees := map[];
      nodeNeighbours := map[];
    }

    /** addNode: count one more edge at `node`, starting from 1 when it has no entry. */
    method AddNode(node: int)
      modifies this
      ensures nodeDegrees == Bump(old(nodeDegrees), node)
      ensures nodeNeighbours == old(nodeNeighbours)
    {
      if node !in nodeDegrees {
        nodeDegrees := nodeDegrees[node := 1];
      } else {
        var count := nodeDegrees[node];
        nodeDegrees := nodeDegrees[node := count + 1];
      }
    }

    /** addNeighbour: append `neighbour` to `node`'s list, creating the list when absent. */
    method AddNeighbour(node: int, neighbour: int)
      modifies this
      ensures nodeNeighbours == Push(old(nodeNeighbours), node, neighbour)
      ensures nodeDegrees == old(nodeDegrees)
    {
      if node !in nodeNeighbours {
        var newNeighbours := [neighbour];
        assert ListIn(nodeNeighbours, node) + [neighbour] == newNeighbours;
        nodeNeighbours := nodeNeighbours[node := newNeighbours];
      } else {
        var neighbours := nodeNeighbours[node];
        neighbours := neighbours + [neighbour];
        nodeNeighbours := nodeNeighbours[node := neighbours];
      }
    }

    /** createMaps: record both endpoints of every edge, in the set's (unspecified) order. The
        new maps are the old ones with `edges` recorded: every endpoint gains an entry, its
        degree grows by its degree in `edges`, and `w` joins `x`'s list once for `x#w` and once
        for `w#x`. */
    method CreateMaps(edges: set<Edge>)
      modifies this
      ensures Extends(old(nodeDegrees), old(nodeNeighbours), edges, nodeDegrees, nodeNeighbours)
    {
      var remaining := edges;
      ghost var done: set<Edge> := {};
      while remaining != {}
        invariant remaining <= edges && done == edges - remaining
        invariant Extends(old(nodeDegrees), old(nodeNeighbours), done, nodeDegrees, nodeNeighbours)
        decreases remaining
      {
        var edge :| edge in remaining;
        var leftNode, rightNode := edge.left, edge.right;
        ghost var degrees, neighbours := nodeDegrees, nodeNeighbours;
        AddNode(leftNode);
        AddNode(rightNode);
        AddNeighbour(leftNode, rightNode);
        AddNeighbour(rightNode, leftNode);
        RecordEdge(old(nodeDegrees), old(nodeNeighbours), done, degrees, neighbours, edge,
                   nodeDegrees, nodeNeighbours);
        TakeOne(edges, remaining, edge);
        remaining := remaining - {edge};
        done := done + {edge};
      }
      assert done == edges;
    }

    /** `x` is recorded with a heavy-hitter degree for a group of `edgeCount` edges. */
    ghost predicate HeavyRecorded(edgeCount: nat, x: int)
      reads this
    {
      x in nodeDegrees && IsHeavyHitterNode(edgeCount, nodeDegrees[x])
    }

    /** `t` is written by the heavy step: increasing heavy hitters joined by `first#second`,
        `second#third` and `first#third`. */
    ghost predicate HeavyTriangle(edges: set<Edge>, t: Triangle)
      reads this
    {
      t.first < t.second < t.third
      && HeavyRecorded(|edges|, t.first) && HeavyRecorded(|edges|, t.second)
      && HeavyRecorded(|edges|, t.third)
      && Edge(t.first, t.second) in edges && Edge(t.second, t.third) in edges
      && Edge(t.first, t.third) in edges
    }

    /** findHeavyHitterTriangles: collect the heavy hitters, then try every triple of them. Every
        heavy triangle is written exactly once and nothing else is written. */
    method FindHeavyHitterTriangles(edges: set<Edge>) returns (triangles: seq<Triangle>)
      ensures forall t :: multiset(triangles)[t] == if HeavyTriangle(edges, t) then 1 else 0
    {
      var heavyHitterNodes: set<int> := {};
      var entries := nodeDegrees.Keys;
      while entries != {}
        invariant entries <= nodeDegrees.Keys
        invariant forall x :: x in heavyHitterNodes <==> x !in entries && HeavyRecorded(|edges|, x)
        decreases entries
      {
        SomeMember(entries);
        var node :| node in entries;
        if IsHeavyHitterNode(|edges|, nodeDegrees[node]) {
          heavyHitterNodes := heavyHitterNodes + {node};
        }
        entries := entries - {node};
      }
      triangles := [];
      var firsts := heavyHitterNodes;
      while firsts != {}
        invariant firsts <= heavyHitterNodes
        invariant forall t :: multiset(triangles)[t]
                              == if t.first !in firsts && HeavyTriangle(edges, t) then 1 else 0
        decreases firsts
      {
        SomeMember(firsts);
        var firstNode :| firstNode in firsts;
        var seconds := heavyHitterNodes;
        while seconds != {}
          invariant seconds <= heavyHitterNodes
          invariant forall t :: multiset(triangles)[t]
                                == if (t.first !in firsts || (t.first == firstNode && t.second !in seconds))
                                      && HeavyTriangle(edges, t) then 1 else 0
          decreases seconds
        {
          SomeMember(seconds);
          var secondNode :| secondNode in seconds;
          var thirds := heavyHitterNodes;
          while thirds != {}
            invariant thirds <= heavyHitterNodes
            invariant forall t :: multiset(triangles)[t]
                                  == if (t.first !in firsts
                                         || (t.first == firstNode && t.second !in seconds)
                                         || (t.first == firstNode && t.second == secondNode && t.third !in thirds))
                                        && HeavyTriangle(edges, t) then 1 else 0
            decreases thirds
          {
            SomeMember(thirds);
            var thirdNode :| thirdNode in thirds;
            if firstNode < secondNode && secondNode < thirdNode
               && Edge(firstNode, secondNode) in edges
               && Edge(secondNode, thirdNode) in edges
               && Edge(firstNode, thirdNode) in edges {
              triangles := triangles + [Triangle(firstNode, secondNode, thirdNode)];
            }
            thirds := thirds - {thirdNode};
          }
          seconds := seconds - {secondNode};
        }
        firsts := firsts - {firstNode};
      }
    }

    /** Every endpoint of `edges` has a degree, and every left endpoint a neighbour list, so the
        lookups of the mixed step succeed. */
    ghost predicate HasEntriesFor(edges: set<Edge>)
      reads this
    {
      forall e :: e in edges ==>
        e.left in nodeDegrees && e.right in nodeDegrees && e.left in nodeNeighbours
    }

    /** isSmaller (src/main/java/TriangleReducer.java:86-91): both arms of its conditional
        compare with `<`, so equal degrees give false. */
    function IsSmaller(node1: int, node2: int): (smaller: bool)
      reads this
      requires node1 in nodeDegrees && node2 in nodeDegrees
      ensures smaller <==> nodeDegrees[node1] < nodeDegrees[node2]
      ensures nodeDegrees[node1] == nodeDegrees[node2] ==> !smaller
    {
      var firstNodeDegree := nodeDegrees[node1];
      var secondNodeDegree := nodeDegrees[node2];
      if firstNodeDegree == secondNodeDegree then firstNodeDegree < secondNodeDegree
      else firstNodeDegree < secondNodeDegree
    }

    /** The mixed step scans the edge `l#r`. */
    ghost predicate Scans(edges: set<Edge>, l: int, r: int)
      reads this
      requires l in nodeDegrees && r in nodeDegrees
    {
      (!IsHeavyHitterNode(|edges|, nodeDegrees[l]) || !IsHeavyHitterNode(|edges|, nodeDegrees[r]))
      && IsSmaller(l, r)
    }

    /** How often the mixed step writes `t = (l, w, r)` from the recorded maps. */
    ghost function ScanCount(edges: set<Edge>, t: Triangle): nat
      reads this
      requires HasEntriesFor(edges)
    {
      var l, w, r := t.first, t.second, t.third;
      if Edge(l, r) in edges && Scans(edges, l, r) && Edge(w, r) in edges
      then multiset(nodeNeighbours[l])[w] else 0
    }

    /** findOtherTriangles: for every scanned edge `l#r`, walk `l`'s neighbour list and write
        `(l, w, r)` whenever the text `w#r` is an edge. */
    method FindOtherTriangles(edges: set<Edge>) returns (triangles: seq<Triangle>)
      requires HasEntriesFor(edges)
      ensures forall t :: multiset(triangles)[t] == ScanCount(edges, t)
    {
      triangles := [];
      var remaining := edges;
      while remaining != {}
        invariant remaining <= edges
        invariant forall t :: multiset(triangles)[t]
                              == if Edge(t.first, t.third) in remaining then 0 else ScanCount(edges, t)
        decreases remaining
      {
        var edge :| edge in remaining;
        var leftNode, rightNode := edge.left, edge.right;
        if (!IsHeavyHitterNode(|edges|, nodeDegrees[leftNode])
            || !IsHeavyHitterNode(|edges|, nodeDegrees[rightNode]))
           && IsSmaller(leftNode, rightNode) {
          var neighbours := nodeNeighbours[leftNode];
          var i := 0;
          while i < |neighbours|
            invariant 0 <= i <= |neighbours|
            invariant forall t :: multiset(triangles)[t]
                                  == if t.first == leftNode && t.third == rightNode
                                     then (if Edge(t.second, rightNode) in edges
                                           then multiset(neighbours[..i])[t.second] else 0)
                                     else if Edge(t.first, t.third) in remaining then 0
                                     else ScanCount(edges, t)
          {
            var neighbour := neighbours[i];
            if Edge(neighbour, rightNode) in edges {
              triangles := triangles + [Triangle(leftNode, neighbour, rightNode)];
            }
            assert neighbours[..i + 1] == neighbours[..i] + [neighbour];
            i := i + 1;
          }
          assert neighbours[..i] == neighbours;
        }
        remaining := remaining - {edge};
      }
    }
  }

  // ---------------------------------------------------------------------------------------------
  // Facts about the group graph used by the proofs above.

  /** The degree map after addNode(node). */
  function Bump(degrees: map<int, int>, node: int): map<int, int>
  {
    degrees[node := CountIn(degrees, node) + 1]
  }

  /** The neighbour map after addNeighbour(node, neighbour). */
  function Push(neighbours: map<int, seq<int>>, node: int, neighbour: int): map<int, seq<int>>
  {
    neighbours[node := ListIn(neighbours, node) + [neighbour]]
  }

  /** Recording one more edge, with the two addNode and two addNeighbour calls of createMaps's
      loop body, keeps the maps equal to the old ones with the processed edges recorded. */
  lemma RecordEdge(degrees0: map<int, int>, neighbours0: map<int, seq<int>>, done: set<Edge>,
                   degrees: map<int, int>, neighbours: map<int, seq<int>>, edge: Edge,
                   degrees': map<int, int>, neighbours': map<int, seq<int>>)
    requires Extends(degrees0, neighbours0, done, degrees, neighbours)
    requires edge !in done
    requires degrees' == Bump(Bump(degrees, edge.left), edge.right)
    requires neighbours' == Push(Push(neighbours, edge.left, edge.right), edge.right, edge.left)
    ensures Extends(degrees0, neighbours0, done + {edge}, degrees', neighbours')
  {
    KeysStep(degrees0.Keys, done, degrees.Keys, edge, degrees'.Keys);
    KeysStep(neighbours0.Keys, done, neighbours.Keys, edge, neighbours'.Keys);
    DegreesStep(degrees0, done, degrees, edge);
    LengthsStep(neighbours0, done, neighbours, edge);
    ListsStep(neighbours0, done, neighbours, edge);
  }

  lemma KeysStep(keys0: set<int>, done: set<Edge>, keys: set<int>, edge: Edge, keys': set<int>)
    requires KeysExtend(keys0, done, keys)
    requires forall x: int :: x in keys' <==> x in keys || x == edge.left || x == edge.right
    ensures KeysExtend(keys0, done + {edge}, keys')
  {
    NodesAdd(done, edge);
  }

  lemma DegreesStep(degrees0: map<int, int>, done: set<Edge>, degrees: map<int, int>, edge: Edge)
    requires DegreesExtend(degrees0, done, degrees)
    requires edge !in done
    ensures DegreesExtend(degrees0, done + {edge}, Bump(Bump(degrees, edge.left), edge.right))
  {
    var bumped := Bump(Bump(degrees, edge.left), edge.right);
    forall x ensures CountIn(bumped, x) == CountIn(degrees0, x) + Degree(done + {edge}, x)
    {
      DegreeAdd(done, edge, x);
    }
  }

  lemma LengthsStep(neighbours0: map<int, seq<int>>, done: set<Edge>, neighbours: map<int, seq<int>>, edge: Edge)
    requires LengthsExtend(neighbours0, done, neighbours)
    requires edge !in done
    ensures LengthsExtend(neighbours0, done + {edge}, Push(Push(neighbours, edge.left, edge.right), edge.right, edge.left))
  {
    var pushed := Push(Push(neighbours, edge.left, edge.right), edge.right, edge.left);
    forall x ensures |ListIn(pushed, x)| == |ListIn(neighbours0, x)| + Degree(done + {edge}, x)
    {
      DegreeAdd(done, edge, x);
    }
  }

  lemma ListsStep(neighbours0: map<int, seq<int>>, done: set<Edge>, neighbours: map<int, seq<int>>, edge: Edge)
    requires ListsExtend(neighbours0, done, neighbours)
    requires edge !in done
    ensures ListsExtend(neighbours0, done + {edge}, Push(Push(neighbours, edge.left, edge.right), edge.right, edge.left))
  {
    var l, r := edge.left, edge.right;
    var pushed := Push(Push(neighbours, l, r), r, l);
    forall x, w ensures multiset(ListIn(pushed, x))[w]
                        == multiset(ListIn(neighbours0, x))[w] + Occurrences(done + {edge}, x, w)
    {
      OccurrencesAdd(done, edge, x, w);
      PushCount(neighbours, l, r, x, w);
      PushCount(Push(neighbours, l, r), r, l, x, w);
    }
  }

  /** Appending `v` to the list of `u` adds one occurrence of `v` to `u`'s list only. */
  lemma PushCount(neighbours: map<int, seq<int>>, u: int, v: int, x: int, w: int)
    ensures multiset(ListIn(Push(neighbours, u, v), x))[w]
            == multiset(ListIn(neighbours, x))[w] + (if x == u && w == v then 1 else 0)
  {
    var pushed := Push(neighbours, u, v);
    if x == u {
      assert ListIn(pushed, x) == ListIn(neighbours, u) + [v];
      assert multiset(ListIn(pushed, x)) == multiset(ListIn(neighbours, u)) + multiset{v};
    }
  }

  /** A non-empty set of nodes has a member to visit next. */
  lemma SomeMember(s: set<int>)
    requires s != {}
    ensures exists x: int :: x in s
  {
    if forall x: int :: x !in s {
      assert false;
    }
  }

  /** Taking `edge` out of the edges still to visit adds it to the visited ones. */
  lemma TakeOne<T>(all: set<T>, remaining: set<T>, x: T)
    requires x in remaining && remaining <= all
    ensures x !in all - remaining
    ensures all - (remaining - {x}) == (all - remaining) + {x}
  {
  }

  lemma OccurrencesAdd(done: set<Edge>, edge: Edge, x: int, w: int)
    requires edge !in done
    ensures Occurrences(done + {edge}, x, w) == Occurrences(done, x, w)
            + (if edge == Edge(x, w) then 1 else 0) + (if edge == Edge(w, x) then 1 else 0)
  {
    assert Edge(x, w) in done + {edge} <==> Edge(x, w) in done || edge == Edge(x, w);
    assert Edge(w, x) in done + {edge} <==> Edge(w, x) in done || edge == Edge(w, x);
  }

  /** The nodes of one more edge. */
  lemma NodesAdd(done: set<Edge>, edge: Edge)
    ensures forall x: int :: x in Nodes(done + {edge}) <==> x in Nodes(done) || x == edge.left || x == edge.right
  {
  }

  lemma DegreeAdd(done: set<Edge>, edge: Edge, x: int)
    requires edge !in done
    ensures Degree(done + {edge}, x) == Degree(done, x)
              + (if edge.left == x then 1 else 0) + (if edge.right == x then 1 else 0)
  {
    if edge.left == x {
      assert LeftAt(done + {edge}, x) == LeftAt(done, x) + {edge};
    } else {
      assert LeftAt(done + {edge}, x) == LeftAt(done, x);
    }
    if edge.right == x {
      assert RightAt(done + {edge}, x) == RightAt(done, x) + {edge};
    } else {
      assert RightAt(done + {edge}, x) == RightAt(done, x);
    }
  }

  // ---------------------------------------------------------------------------------------------
  // The maps after createMaps, and the whole of `reduce`.

  /** A node occurs in the group exactly when it has a positive degree. */
  lemma NodesArePositiveDegree(edges: set<Edge>, x: int)
    ensures x in Nodes(edges) <==> Degree(edges, x) > 0
  {
    if x in Nodes(edges) {
      var e :| e in edges && (e.left == x || e.right == x);
      assert e in LeftAt(edges, x) || e in RightAt(edges, x);
    } else {
      assert LeftAt(edges, x) == {};
      assert RightAt(edges, x) == {};
    }
  }

  /** Without the self-loop `x#x`, a node's degree is its number of edges. */
  lemma DegreeCountsIncidentEdges(edges: set<Edge>, x: int)
    requires Edge(x, x) !in edges
    ensures Degree(edges, x) == |Incident(edges, x)|
  {
    assert Incident(edges, x) == LeftAt(edges, x) + RightAt(edges, x);
    assert LeftAt(edges, x) !! RightAt(edges, x);
  }

  /** After createMaps on fresh maps: both maps have exactly the group's nodes as keys; a
      node's degree is its number of edges and also the length of its neighbour list; and `w` is
      in `x`'s list exactly when `x#w` or `w#x` is an edge. */
  lemma FreshMapsFacts(edges: set<Edge>, degrees: map<int, int>, neighbours: map<int, seq<int>>)
    requires Extends(map[], map[], edges, degrees, neighbours)
    ensures forall x: int :: x in degrees <==> x in Nodes(edges)
    ensures forall x: int :: x in neighbours <==> x in Nodes(edges)
    ensures forall x :: x in degrees ==> degrees[x] == Degree(edges, x) == |neighbours[x]|
    ensures forall x, w :: x in neighbours ==> (w in neighbours[x] <==> Adjacent(edges, x, w))
  {
    forall x, w | x in neighbours
      ensures w in neighbours[x] <==> Adjacent(edges, x, w)
    {
      assert multiset(ListIn(neighbours, x))[w] == Occurrences(edges, x, w);
    }
  }

  /** On maps filled from fresh by createMaps, the heavy step's and the mixed step's counts are
      the counts of the group's own graph. */
  lemma CountsOfFreshMaps(maps: GroupMaps, edges: set<Edge>)
    requires Extends(map[], map[], edges, maps.nodeDegrees, maps.nodeNeighbours)
    ensures maps.HasEntriesFor(edges)
    ensures forall t :: maps.HeavyTriangle(edges, t) <==> HeavyCount(edges, t) == 1
    ensures forall t :: maps.ScanCount(edges, t) == MixedCount(edges, t)
  {
    forall e | e in edges
      ensures e.left in maps.nodeDegrees && e.right in maps.nodeDegrees && e.left in maps.nodeNeighbours
    {
      assert e.left in Nodes(edges) && e.right in Nodes(edges);
    }
    forall t
      ensures maps.HeavyTriangle(edges, t) <==> HeavyCount(edges, t) == 1
    {
      HeavyTriangleOfFreshMaps(maps, edges, t);
    }
    forall t
      ensures maps.ScanCount(edges, t) == MixedCount(edges, t)
    {
      ScanCountOfFreshMaps(maps, edges, t);
    }
  }

  lemma HeavyTriangleOfFreshMaps(maps: GroupMaps, edges: set<Edge>, t: Triangle)
    requires Extends(map[], map[], edges, maps.nodeDegrees, maps.nodeNeighbours)
    ensures maps.HeavyTriangle(edges, t) <==> HeavyCount(edges, t) == 1
  {
    if Edge(t.first, t.second) in edges && Edge(t.second, t.third) in edges {
      assert t.first in Nodes(edges) && t.second in Nodes(edges) && t.third in Nodes(edges);
      FreshNode(edges, maps.nodeDegrees, maps.nodeNeighbours, t.first);
      FreshNode(edges, maps.nodeDegrees, maps.nodeNeighbours, t.second);
      FreshNode(edges, maps.nodeDegrees, maps.nodeNeighbours, t.third);
    }
  }

  lemma ScanCountOfFreshMaps(maps: GroupMaps, edges: set<Edge>, t: Triangle)
    requires Extends(map[], map[], edges, maps.nodeDegrees, maps.nodeNeighbours)
    requires maps.HasEntriesFor(edges)
    ensures maps.ScanCount(edges, t) == MixedCount(edges, t)
  {
    var l, w, r := t.first, t.second, t.third;
    if Edge(l, r) in edges {
      FreshNode(edges, maps.nodeDegrees, maps.nodeNeighbours, l);
      FreshNode(edges, maps.nodeDegrees, maps.nodeNeighbours, r);
      assert multiset(ListIn(maps.nodeNeighbours, l))[w] == Occurrences(edges, l, w);
    }
  }

  /** One node of maps filled from fresh: its entries and its degree. */
  lemma FreshNode(edges: set<Edge>, degrees: map<int, int>, neighbours: map<int, seq<int>>, x: int)
    requires Extends(map[], map[], edges, degrees, neighbours)
    ensures x in degrees <==> x in Nodes(edges)
    ensures x in neighbours <==> x in Nodes(edges)
    ensures x in degrees ==> degrees[x] == Degree(edges, x)
    ensures x in neighbours ==> |neighbours[x]| == Degree(edges, x)
  {
    assert CountIn(degrees, x) == Degree(edges, x);
    assert |ListIn(neighbours, x)| == Degree(edges, x);
  }

  /** No triangle is written by both steps: the heavy step needs all three nodes heavy, the
      mixed step needs one end of the scanned edge light. */
  lemma HeavyAndMixedDisjoint(edges: set<Edge>, t: Triangle)
    ensures HeavyCount(edges, t) == 0 || MixedCount(edges, t) == 0
  {
  }

  /** reduce: deduplicate the group's values into a set, fill fresh maps, and write the heavy
      step's triangles followed by the mixed step's. Each triangle occurs as often as the two
      steps write it; every one is a triangle of the group; the heavy ones come first; and an
      empty group writes nothing. */
  method Reduce(values: seq<Edge>) returns (triangles: seq<Triangle>)
    ensures forall t :: multiset(triangles)[t] == TriangleCount(Dedup(values), t)
    ensures forall t :: t in triangles ==> IsTriangleIn(Dedup(values), t)
    ensures forall i :: 0 <= i < |triangles| ==>
              HeavyCount(Dedup(values), triangles[i]) == 1 || MixedCount(Dedup(values), triangles[i]) > 0
    ensures forall i, j :: 0 <= i < j < |triangles| && HeavyCount(Dedup(values), triangles[j]) == 1 ==>
              HeavyCount(Dedup(values), triangles[i]) == 1
    ensures values == [] ==> triangles == []
  {
    var edges: set<Edge> := {};
    for i := 0 to |values|
      invariant edges == Dedup(values[..i])
    {
      assert values[..i + 1] == values[..i] + [values[i]];
      edges := edges + {values[i]};
    }
    assert values[..|values|] == values;
    var maps := new GroupMaps();
    maps.CreateMaps(edges);
    CountsOfFreshMaps(maps, edges);
    var heavy := maps.FindHeavyHitterTriangles(edges);
    var others := maps.FindOtherTriangles(edges);
    triangles := heavy + others;
    ComposedOutput(edges, heavy, others);
  }

  /** The heavy step's output followed by the mixed step's: the counts add up, every entry is a
      triangle of the group written by one of the steps, the heavy ones come first, and an empty
      group gives nothing. */
  lemma ComposedOutput(edges: set<Edge>, heavy: seq<Triangle>, others: seq<Triangle>)
    requires forall t :: multiset(heavy)[t] == HeavyCount(edges, t)
    requires forall t :: multiset(others)[t] == MixedCount(edges, t)
    ensures forall t :: multiset(heavy + others)[t] == TriangleCount(edges, t)
    ensures forall t :: t in heavy + others ==> IsTriangleIn(edges, t)
    ensures forall i :: 0 <= i < |heavy + others| ==>
              HeavyCount(edges, (heavy + others)[i]) == 1 || MixedCount(edges, (heavy + others)[i]) > 0
    ensures forall i, j :: 0 <= i < j < |heavy + others| && HeavyCount(edges, (heavy + others)[j]) == 1 ==>
              HeavyCount(edges, (heavy + others)[i]) == 1
    ensures edges == {} ==> heavy + others == []
  {
    var triangles := heavy + others;
    forall t | t in triangles
      ensures IsTriangleIn(edges, t)
    {
      assert multiset(triangles)[t] > 0;
      OutputIsTriangle(edges, t);
    }
    forall i | 0 <= i < |heavy|
      ensures HeavyCount(edges, triangles[i]) == 1
    {
      assert triangles[i] == heavy[i] && multiset(heavy)[heavy[i]] > 0;
    }
    forall i | |heavy| <= i < |triangles|
      ensures MixedCount(edges, triangles[i]) > 0 && HeavyCount(edges, triangles[i]) == 0
    {
      assert triangles[i] == others[i - |heavy|] && multiset(others)[others[i - |heavy|]] > 0;
      HeavyAndMixedDisjoint(edges, triangles[i]);
    }
  }

  /** Soundness: whatever `reduce` writes has all three of its sides in the group's edge set. */
  lemma OutputIsTriangle(edges: set<Edge>, t: Triangle)
    requires TriangleCount(edges, t) > 0
    ensures IsTriangleIn(edges, t)
  {
    if MixedCount(edges, t) > 0 {
      assert Occurrences(edges, t.first, t.second) > 0;
    }
  }

  /** When every edge is written `lo#hi` with `lo < hi`, as the mapper writes them, the lookup
      of `w#r` only succeeds for `w < r`, so the mixed step only writes `(l, w, r)` with
      `l < r` and `w < r`. */
  lemma MixedNeedsSmallerNeighbour(edges: set<Edge>, t: Triangle)
    requires forall e :: e in edges ==> e.left < e.right
    requires MixedCount(edges, t) > 0
    ensures t.first < t.third && t.second < t.third
  {
  }
}
