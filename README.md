# Triangle listing on Hadoop, modelled in Dafny

The job lists the triangles of a large undirected graph in two stages.

- **Mapper** (`src/main/java/TriangleMapper.java`). Each input line `u v` is one edge.
  - The mapper writes the edge as the text `lo#hi`, smaller node first.
  - It hashes both endpoints to one of `N = 5` buckets with Java's `%`.
  - It sends the edge to every group key `(a, b, c)` with `0 <= a < b < c < N` whose three bucket
    pairs `(a, b)`, `(a, c)`, `(b, c)` include the edge's sorted bucket pair.
  - The group key is written as the decimal text of `a`, `b` and `c`, concatenated.
- **Reducer** (`src/main/java/TriangleReducer.java`). It handles one group key at a time.
  - It collapses the group's edge texts into a set.
  - It fills a node-to-degree map and a node-to-neighbour-list map.
  - It calls a node a heavy hitter when its degree is at least the square root of the group's
    edge count.
  - It lists the increasing triples of heavy hitters joined by three edges.
  - It then goes over every edge `left#right` whose endpoints are not both heavy. It scans the
    edge only when its LEFT endpoint has strictly smaller degree; an edge whose right endpoint is
    the lighter one is skipped. A scan walks the left endpoint's neighbour list and looks up the
    text `neighbour#right`.

The model is split into five modules:

- `Graph` (`graph.dfy`): edges as ordered pairs `Edge(left, right)`, which is the order of the
  text `left#right`, and triangles as triples.
- `Text` (`text.dfy`): the decimal texts of the group key and of an edge, and the facts that
  make pairs and triples stand in for those texts.
- `TriangleMapper` (`mapper.dfy`): `Hash`, the edge canonicalisation, and `Map`, whose triple
  loop is proved equal to the recursive `Emissions` function. The properties of the emissions
  are lemmas about that function.
- `TriangleReducer` (`reducer.dfy`):
  - The class `GroupMaps` holds the two maps the reducer fills in place. Its methods are
    `AddNode`, `AddNeighbour`, `CreateMaps`, `FindHeavyHitterTriangles`, `FindOtherTriangles`
    and `IsSmaller`.
  - The method `Reduce` runs the whole reducer.
  - Each method's output is stated as a multiset, because the source iterates over hash sets
    and maps in an unspecified order.
  - The counts come from ghost functions of the group's edge set alone (`HeavyCount`,
    `MixedCount`, `TriangleCount`).
- `Scenarios` (`scenarios.dfy`): concrete groups showing what the job as written guarantees and
  what it does not. With `N = 5`, every edge in them reaches the group `(1, 2, 3)`, the only group
  that can hold all three edges of the triangle on nodes 1, 2 and 3.

Where the model follows the code rather than the job's intended behaviour:

- **Same-bucket edges.** The emission test needs two different buckets, so an edge whose
  endpoints share a bucket is sent nowhere. Its triangles are never listed.
- **Equal degrees.** Both arms of `isSmaller`'s conditional compare with `<`, so a mixed edge
  whose endpoints have equal degrees is never scanned. `Scenarios.TriangleMissedOnEqualDegrees`
  shows a triangle lost this way.
- **Left endpoint only.** `isSmaller(leftNode, rightNode)` is asked only one way round, and only
  the left endpoint's list is walked, so an edge whose right endpoint has the smaller degree is
  never scanned. `Scenarios.TriangleMissedOnLighterRightEnd` shows a triangle lost this way with
  no tie and no failed lookup involved.
- **One-sided lookup.** The lookup `makeEdge(neighbour, rightNode)` is not put in `lo#hi`
  order, so it fails when the neighbour is the larger node. `Scenarios.TriangleMissedByOneSidedLookup`
  shows a triangle lost this way.
- **Several scans per triangle.** The mixed step writes a triangle once for each of its edges
  `l#r` that it scans and whose lookup succeeds, and nothing limits a triangle to one scanned
  edge. `Scenarios.TriangleWrittenTwice` shows one reducer writing a triangle twice, from `1#3`
  and from `2#3`.
- **Completeness.** Neither "every triangle is listed" nor "every triangle is listed exactly
  once" holds, so neither is stated. The model states exactly how often each triple is written
  in each group.
- **Negative nodes.** Java's `%` truncates toward zero, so a negative node hashes into
  `(-N, 0]`. A negative bucket is never emitted. A negative multiple of `N` hashes to bucket 0 and
  is emitted like a non-negative node.
- **Degree.** The degree is the number of times a node was recorded, one per edge text. The
  self-loop `x#x` counts twice. `TriangleReducer.DegreeCountsIncidentEdges` proves that, without
  a self-loop, this is the number of incident edges.

## Model

| member | source | states |
|---|---|---|
| Text.MakeReducerHash | src/main/java/TriangleMapper.java:15-18 | for three single-digit buckets, the key is exactly their three digit characters |
| Text.ReducerHashInjective | src/main/java/TriangleMapper.java:15-18 | two triples of digits with the same key are the same triple, so at most 10 buckets are enough for a key to name one group |
| Text.ReducerHashCollidesBeyondDigits | src/main/java/TriangleMapper.java:15-18 | multi-digit buckets can make the key ambiguous even for increasing triples: (0, 1, 112) and (0, 11, 12) both give "01112" |
| Text.IntToStringInjective | src/main/java/TriangleMapper.java:16-17 | distinct integers have distinct decimal texts |
| Text.MakeEdge | src/main/java/TriangleReducer.java:56-58 | the edge text holds the separator `#` and at least three characters |
| Text.MakeEdgeInjective | src/main/java/TriangleReducer.java:56-58 | the text `x#y` determines the ordered pair (x, y), so a set of edge texts is a set of ordered pairs and a text lookup is a pair lookup |
| TriangleMapper.Hash | src/main/java/TriangleMapper.java:11-13 | a non-negative node gets its remainder in [0, n); a negative node gets a bucket in (-n, 0], as Java's truncating `%` gives |
| TriangleMapper.Canonical | src/main/java/TriangleMapper.java:25-29 | the edge is written smaller node first and keeps both endpoints |
| TriangleMapper.BucketPair | src/main/java/TriangleMapper.java:30-36 | the bucket pair used by the loop is the two endpoint hashes in increasing order, whatever the input order |
| TriangleMapper.SortedKey | src/main/java/TriangleMapper.java:38-43 | three distinct buckets sorted into a key that holds each of them and covers the pair of any two of them |
| TriangleMapper.Emissions | src/main/java/TriangleMapper.java:25-49 | the (key, canonical edge) writes of one input line, in loop order; its properties are stated by EmissionsFacts |
| TriangleMapper.Map | src/main/java/TriangleMapper.java:20-50 | the swap and the triple loop write exactly the sequence `Emissions(n, firstNode, secondNode)` |
| TriangleMapper.EmissionsFacts | src/main/java/TriangleMapper.java:38-49 | every emission is the canonical edge under a key in range that holds its bucket pair; every such key receives it; keys come in strictly increasing order, so none repeats; there are n - 2 emissions for two distinct non-negative buckets and none otherwise |
| TriangleMapper.CoveringKeysCount | src/main/java/TriangleMapper.java:38-43 | the number of keys holding the bucket pair (lo, hi) is n - 2 when 0 <= lo < hi, and 0 otherwise |
| TriangleMapper.EmissionsSymmetric | src/main/java/TriangleMapper.java:25-37 | the lines `u v` and `v u` give the same edge text and the same emissions |
| TriangleMapper.SameBucketNeverEmitted | src/main/java/TriangleMapper.java:41-43 | an edge whose endpoints share a bucket, a self-loop included, is not emitted at all |
| TriangleMapper.NegativeBucketNeverEmitted | src/main/java/TriangleMapper.java:38-43 | an edge with an endpoint in a negative bucket is not emitted at all |
| TriangleMapper.EmittedUnderIsEmitted | src/main/java/TriangleMapper.java:41-45 | a key in range that holds the edge's bucket pair receives the canonical edge |
| TriangleMapper.TriangleMeetsInGroup | src/main/java/TriangleMapper.java:30-45 | for three nodes in three distinct non-negative buckets, all three edges are emitted under the key of the sorted bucket triple |
| TriangleMapper.TriangleMeetsInOneGroup | src/main/java/TriangleMapper.java:38-45 | for nodes in three distinct buckets, a key receiving all three edges is the sorted bucket triple, so only one group can see the whole triangle |
| TriangleMapper.KeyText | src/main/java/TriangleMapper.java:44 | the text written as the reduce key of (a, b, c); its properties are stated by KeyTextInjective, EmittedKeyTextsDistinct and KeyTextCollidesFrom113 |
| TriangleMapper.KeyTextInjective | src/main/java/TriangleMapper.java:38-44 | with at most 10 buckets, two keys the loops reach with the same key text are the same key |
| TriangleMapper.EmittedKeyTextsDistinct | src/main/java/TriangleMapper.java:38-45 | with at most 10 buckets, the key texts written for one input line are pairwise distinct |
| TriangleMapper.KeyTextCollidesFrom113 | src/main/java/TriangleMapper.java:38-44 | with 113 buckets or more, the reachable keys (0, 1, 112) and (0, 11, 12) are written as the same text, so two groups would be merged |
| TriangleMapper.KeysOfSorted | src/main/java/TriangleMapper.java:38-40 | keys in strictly increasing loop order are pairwise distinct |
| TriangleReducer.CeilSqrt | src/main/java/TriangleReducer.java:53 | the least natural number whose square reaches m |
| TriangleReducer.IsHeavyHitterNode | src/main/java/TriangleReducer.java:52-54 | a node is heavy exactly when its degree is non-negative and its square is at least the edge count, equality included |
| TriangleReducer.CeilSqrtIsThreshold | src/main/java/TriangleReducer.java:53 | an integer is at least the square root of m, rounded up, exactly when it is non-negative and its square reaches m |
| TriangleReducer.GroupMaps.constructor | src/main/java/TriangleReducer.java:123-124 | both maps start empty |
| TriangleReducer.GroupMaps.AddNode | src/main/java/TriangleReducer.java:15-22 | the node's count becomes 1 when absent and grows by 1 otherwise; all other counts and the neighbour map are unchanged |
| TriangleReducer.GroupMaps.AddNeighbour | src/main/java/TriangleReducer.java:24-35 | the neighbour is appended at the end of the node's list, which is created when absent; other lists and the degrees are unchanged |
| TriangleReducer.PushCount | src/main/java/TriangleReducer.java:24-35 | appending v to u's list adds one occurrence of v to u's list and changes no other count |
| TriangleReducer.GroupMaps.CreateMaps | src/main/java/TriangleReducer.java:37-50 | the maps become the old maps with the edges recorded: the keys gain every endpoint; each count and list length grows by the node's degree in the edges; w joins x's list once for `x#w` and once for `w#x` |
| TriangleReducer.RecordEdge | src/main/java/TriangleReducer.java:41-49 | one loop body of createMaps (two addNode and two addNeighbour calls) extends the recorded edges by that edge |
| TriangleReducer.NodesArePositiveDegree | src/main/java/TriangleReducer.java:37-50 | a node occurs in the group exactly when its degree is positive |
| TriangleReducer.DegreeCountsIncidentEdges | src/main/java/TriangleReducer.java:37-50 | without the self-loop `x#x`, a node's degree is the number of edges touching it |
| TriangleReducer.FreshMapsFacts | src/main/java/TriangleReducer.java:119-125 | after createMaps on fresh maps: both maps have exactly the group's nodes as keys; a node's count equals its degree and its list length; w is in x's list exactly when `x#w` or `w#x` is an edge |
| TriangleReducer.GroupMaps.FindHeavyHitterTriangles | src/main/java/TriangleReducer.java:60-84 | the output holds each increasing triple of recorded heavy hitters joined by `first#second`, `second#third` and `first#third` exactly once, and nothing else |
| TriangleReducer.GroupMaps.IsSmaller | src/main/java/TriangleReducer.java:86-91 | true exactly when the first degree is strictly smaller, so equal degrees always give false |
| TriangleReducer.GroupMaps.FindOtherTriangles | src/main/java/TriangleReducer.java:93-115 | each triple (l, w, r) is written once per occurrence of w in l's list, when `l#r` is an edge, not both ends are heavy, l has the strictly smaller degree and the text `w#r` is an edge; nothing else is written |
| TriangleReducer.CountsOfFreshMaps | src/main/java/TriangleReducer.java:60-115 | on maps filled from fresh, every lookup of the mixed step succeeds, and both steps' counts are those of the group's edge set alone |
| TriangleReducer.HeavyAndMixedDisjoint | src/main/java/TriangleReducer.java:101-102 | no triple is written by both the heavy step and the mixed step |
| TriangleReducer.OutputIsTriangle | src/main/java/TriangleReducer.java:101-106 | every written triple has all three of its sides in the group's edge set |
| TriangleReducer.MixedNeedsSmallerNeighbour | src/main/java/TriangleReducer.java:106 | when every edge is written `lo#hi`, the mixed step writes (l, w, r) only with l < r and w < r |
| TriangleReducer.Reduce | src/main/java/TriangleReducer.java:117-131 | each triple is written as often as the heavy and mixed counts of the deduplicated edge set say; every written triple is a triangle of the group; heavy triangles come before all others; an empty group writes nothing |
| TriangleReducer.ComposedOutput | src/main/java/TriangleReducer.java:126-130 | the heavy list followed by the mixed list adds the counts, keeps the heavy triangles first, and is empty for an empty group |
| Scenarios.Routed | src/main/java/TriangleMapper.java:41-43 | an edge `lo#hi` whose buckets are two distinct ones of 1, 2 and 3 reaches the group (1, 2, 3) |
| Scenarios.SingleReachesKey123 | src/main/java/TriangleMapper.java:38-45 | the three edges of the triangle 1, 2, 3 all reach the group (1, 2, 3) |
| Scenarios.SingleDegrees | src/main/java/TriangleReducer.java:52-54 | in that group every node has degree 2 and is heavy, since 2 * 2 >= 3 |
| Scenarios.SingleTriangleFoundOnce | src/main/java/TriangleReducer.java:60-84 | the group writes (1, 2, 3) exactly once and nothing else |
| Scenarios.TwiceReachesKey123 | src/main/java/TriangleMapper.java:38-45 | the five edges of the second group all reach the group (1, 2, 3) |
| Scenarios.TwiceDegrees | src/main/java/TriangleReducer.java:52-54 | nodes 1 and 2 have degree 2, node 3 degree 4, and nodes 1 and 2 are light |
| Scenarios.TriangleWrittenTwice | src/main/java/TriangleReducer.java:93-115 | the one triangle 1, 2, 3 is written twice, as (1, 2, 3) from `1#3` and as (2, 1, 3) from `2#3` |
| Scenarios.TiedReachesKey123 | src/main/java/TriangleMapper.java:38-45 | the six edges of the third group all reach the group (1, 2, 3) |
| Scenarios.TiedDegrees | src/main/java/TriangleReducer.java:52-54 | nodes 1, 2 and 3 all have degree 2 and are light |
| Scenarios.TiedNode | src/main/java/TriangleReducer.java:52-54 | any of the nodes 1, 2, 3 has degree 2 and is light |
| Scenarios.TriangleMissedOnEqualDegrees | src/main/java/TriangleReducer.java:86-91 | the triangle 1, 2, 3 is in the group, yet no ordering of it is written, because isSmaller rejects every edge between equal degrees |
| Scenarios.OneSidedReachesKey123 | src/main/java/TriangleMapper.java:38-45 | the five edges of the fourth group all reach the group (1, 2, 3) |
| Scenarios.OneSidedDegrees | src/main/java/TriangleReducer.java:52-54 | nodes 1, 2, 3 have degrees 2, 3, 2, and nodes 1 and 3 are light |
| Scenarios.OneSidedScanMissesEdge | src/main/java/TriangleReducer.java:101-106 | the edge `1#2` is scanned and 3 is a neighbour of node 1, but the text `3#2` is not an edge |
| Scenarios.TriangleMissedByOneSidedLookup | src/main/java/TriangleReducer.java:106 | the triangle 1, 2, 3 is in the group, yet no ordering of it is written |
| Scenarios.LeftOnlyReachesKey123 | src/main/java/TriangleMapper.java:38-45 | the five edges of the fifth group all reach the group (1, 2, 3) |
| Scenarios.LeftOnlyDegrees | src/main/java/TriangleReducer.java:52-54 | nodes 1, 2, 3 have degrees 3, 3, 2, so 1 and 2 are heavy and 3 is light |
| Scenarios.TriangleMissedOnLighterRightEnd | src/main/java/TriangleReducer.java:101-104 | the triangle 1, 2, 3 is in the group, yet no ordering of it is written: `1#2` has both ends heavy, and `1#3` and `2#3` have the lighter end on the right, so none is scanned |

## Left out

- Hadoop's `Mapper`/`Reducer` framework, `Context.write`, the `Text` and `NullWritable` wrappers, and the shuffle between the stages. A mapper's writes are a returned sequence; a reducer's input is a sequence of edges and its output a sequence of triangles.
- `src/main/java/Test.java`: job configuration and file paths only.
- Parsing input lines and edge texts with `split` and `Integer.valueOf`. Edges are integer pairs, so malformed lines, which make the source throw, do not arise.
- `StringUtils.join` formatting of a triangle: a triangle is a triple of integers.
- `Math.sqrt` on doubles: the threshold is the exact integer test `degree >= CeilSqrt(edgeCount)`, which `IsHeavyHitterNode`'s contract shows equal to `degree >= 0 && degree * degree >= edgeCount`. Rounding in the double square root is not modelled.
- Iteration order of `HashSet` and `HashMap`: the set loops pick any remaining element, and results are stated as multisets of triangles.
- 32-bit `int` arithmetic: node identifiers, buckets and degree counters are unbounded integers, so overflow of a count or of a node identifier is not modelled.
- Java's `LinkedList` objects: neighbour lists are sequence values in the map, so the aliasing between the list fetched by `addNeighbour` and the list stored in the map is not modelled (it has no visible effect here).
- The edge texts themselves: the reducer works on pairs. `Text.MakeEdgeInjective` is what makes a set of texts a set of pairs. A text that is not `lo#hi` of the mapper (for example `2#1`) is kept as the pair it spells.
- TriangleReducer.GroupMaps.FindOtherTriangles: requires every endpoint of the edges to have a degree and every left endpoint a neighbour list; otherwise the source fails with a `NullPointerException` on unboxing or on iterating a missing list. `Reduce` always meets this requirement.
- TriangleMapper.Map: takes the two nodes of a parsed line and the bucket count `n` as parameters; the source fixes `n` at 5 (`TriangleMapper.N`). At most 10 buckets are enough for distinct key texts (`TriangleMapper.KeyTextInjective`); from 113 buckets on, two groups share a text (`TriangleMapper.KeyTextCollidesFrom113`); the bucket counts in between are not settled here.
- A theorem that every triangle of the graph is listed, or listed exactly once: the code does not guarantee either, as the scenarios show, so no such theorem is stated.
