/** The graph the blossom search works on: one adjacency list of edge records
    per node (`using Graph = vector<list<Edge>>` in main.cpp). */
module Graphs {

  /** `struct Edge`: an edge record from `src` to `dest` carrying its own
      `matched` flag. */
  datatype Edge = Edge(src: int, dest: int, matched: bool)

  /** One adjacency list per node. */
  type Graph = seq<seq<Edge>>

  /** An `EdgePtr` (a `list<Edge>::iterator`): the edge record at position
      `pos` of the adjacency list of `node`. */
  datatype EdgeRef = EdgeRef(node: int, pos: int)

  ghost predicate ValidRef(g: Graph, e: EdgeRef) {
    0 <= e.node < |g| && 0 <= e.pos < |g[e.node]|
  }

  function At(g: Graph, e: EdgeRef): Edge
    requires ValidRef(g, e)
  {
    g[e.node][e.pos]
  }

  /** Every edge record names nodes of the graph. */
  ghost predicate WellFormed(g: Graph) {
    forall v, k :: 0 <= v < |g| && 0 <= k < |g[v]| ==>
      0 <= g[v][k].src < |g| && 0 <= g[v][k].dest < |g|
  }

  /** No edge reference occurs twice (`Chains.Distinct` for edge
      references). */
  ghost predicate DistinctRefs(s: seq<EdgeRef>) {
    forall a, b :: 0 <= a < b < |s| ==> s[a] != s[b]
  }
}
