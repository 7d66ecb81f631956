/** Values shared by the two stages of the triangle-listing job. */
module Graph {

  /** An edge as the ordered pair of node identifiers written in its text `left#right`. */
  datatype Edge = Edge(left: int, right: int)

  /** A triangle as the three node identifiers in the order the reducer writes them. */
  datatype Triangle = Triangle(first: int, second: int, third: int)

  /** Two nodes are joined when the edge set holds the pair in either orientation. */
  predicate Adjacent(edges: set<Edge>, x: int, y: int)
  {
    Edge(x, y) in edges || Edge(y, x) in edges
  }

  /** The three nodes of `t` are pairwise joined in `edges`. */
  predicate IsTriangleIn(edges: set<Edge>, t: Triangle)
  {
    Adjacent(edges, t.first, t.second)
    && Adjacent(edges, t.second, t.third)
    && Adjacent(edges, t.first, t.third)
  }
}
