/** Basic vocabulary of the graph model: node labels, the adjacency map,
    distances with an explicit infinity, and the invariants of the store. */
module Graphs {

  /** Nodes are identified by their label. */
  type Node = string

  /** The dictionary of dictionaries `grafo`: node -> (neighbour -> weight). */
  type Adjacency = map<Node, map<Node, int>>

  datatype Option<T> = None | Some(value: T)

  /** A tentative distance: a number or `float('inf')`. */
  datatype Dist = Inf | Fin(n: int)

  /** The comparison `x < d` of a number with a distance that may be infinite. */
  predicate Lowers(x: int, d: Dist)
  {
    d.Inf? || x < d.n
  }

  /** The comparison `x > d` of a number with a distance that may be infinite. */
  predicate Exceeds(x: int, d: Dist)
  {
    d.Fin? && x > d.n
  }

  /** Adjacency invariant: every neighbour is itself a node of the graph. */
  ghost predicate Closed(g: Adjacency)
  {
    forall u, v :: u in g && v in g[u] ==> v in g
  }

  /** Undirected storage: every stored pair is stored in both directions
      with the same weight. */
  ghost predicate Symmetric(g: Adjacency)
  {
    forall u, v :: u in g && v in g[u] ==> v in g && u in g[v] && g[v][u] == g[u][v]
  }

  /** All stored weights are non-negative (the assumption of Dijkstra's algorithm). */
  ghost predicate NonNegative(g: Adjacency)
  {
    forall u, v :: u in g && v in g[u] ==> g[u][v] >= 0
  }
}
