/** Walks in the adjacency map, their weights, and the bound every relaxed
    distance map gives on them. */
module Paths {
  import opened Graphs

  /** `p` is a non-empty sequence of nodes in which each consecutive pair is
      a stored edge. */
  ghost predicate IsWalk(g: Adjacency, p: seq<Node>)
    decreases |p|
  {
    |p| > 0 && p[0] in g && (|p| > 1 ==> p[1] in g[p[0]] && IsWalk(g, p[1..]))
  }

  /** The sum of the edge weights along a walk. */
  ghost function PathWeight(g: Adjacency, p: seq<Node>): int
    requires IsWalk(g, p)
    decreases |p|
  {
    if |p| == 1 then 0 else g[p[0]][p[1]] + PathWeight(g, p[1..])
  }

  /** `p` is a walk from `s` to `t`. */
  ghost predicate IsPath(g: Adjacency, p: seq<Node>, s: Node, t: Node)
  {
    IsWalk(g, p) && p[0] == s && p[|p| - 1] == t
  }

  /** Every edge leaving a node with a finite distance is relaxed: its head
      has a finite distance no larger than the tail's plus the weight. */
  ghost predicate Relaxed(g: Adjacency, dist: map<Node, Dist>)
  {
    forall x, y :: x in g && y in g[x] && x in dist && dist[x].Fin? ==>
      y in dist && dist[y].Fin? && dist[y].n <= dist[x].n + g[x][y]
  }

  /** In a relaxed distance map, the end of a walk that starts at a node with
      a finite distance has a finite distance, bounded by the start's distance
      plus the weight of the walk. */
  lemma {:induction false} RelaxedBound(g: Adjacency, dist: map<Node, Dist>, p: seq<Node>)
    requires Relaxed(g, dist) && IsWalk(g, p) && p[0] in dist && dist[p[0]].Fin?
    ensures p[|p| - 1] in dist && dist[p[|p| - 1]].Fin?
    ensures dist[p[|p| - 1]].n <= dist[p[0]].n + PathWeight(g, p)
    decreases |p|
  {
    if |p| > 1 {
      RelaxedBound(g, dist, p[1..]);
    }
  }

  /** Prepending an edge `v -> p[0]` to a walk gives a walk one edge heavier. */
  lemma PrependWalk(g: Adjacency, v: Node, p: seq<Node>)
    requires IsWalk(g, p) && v in g && p[0] in g[v]
    ensures IsWalk(g, [v] + p)
    ensures PathWeight(g, [v] + p) == g[v][p[0]] + PathWeight(g, p)
  {
    assert ([v] + p)[1..] == p;
  }
}
