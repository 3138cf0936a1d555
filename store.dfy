/** The two mutators of the graph store, as functions of the adjacency map
    before the call, and what they preserve. */
module Store {
  import opened Graphs

  /** The adjacency map after `agregar_nodo(n)`: an empty neighbour map is
      added only when `n` is absent; existing neighbour maps never change. */
  function WithNode(g: Adjacency, n: Node): (r: Adjacency)
    ensures r.Keys == g.Keys + {n}
    ensures forall u :: u in g ==> r[u] == g[u]
    ensures n !in g ==> r[n] == map[]
  {
    if n in g then g else g[n := map[]]
  }

  /** True when `(u, v)` is one of the entries written by adding the edge
      `o -> d` (the reverse entry too when the graph is undirected). */
  predicate Written(directed: bool, o: Node, d: Node, u: Node, v: Node)
  {
    (u == o && v == d) || (!directed && u == d && v == o)
  }

  /** The assignment `g[u][v] = w` on an existing node `u`. */
  function Put(g: Adjacency, u: Node, v: Node, w: int): (r: Adjacency)
    requires u in g
    ensures r.Keys == g.Keys
    ensures r[u].Keys == g[u].Keys + {v} && r[u][v] == w
    ensures forall y :: y in g[u] && y != v ==> r[u][y] == g[u][y]
    ensures forall x :: x in g && x != u ==> r[x] == g[x]
  {
    g[u := g[u][v := w]]
  }

  /** The adjacency map after `agregar_arista(o, d, w)` on a graph whose
      `dirigido` flag is `directed`. */
  function WithEdge(g: Adjacency, directed: bool, o: Node, d: Node, w: int): (r: Adjacency)
    ensures r.Keys == g.Keys + {o, d}
    ensures d in r[o] && r[o][d] == w
    ensures !directed ==> o in r[d] && r[d][o] == w
  {
    var g1 := Put(WithNode(WithNode(g, o), d), o, d, w);
    if directed then g1 else Put(g1, d, o, w)
  }

  /** Adding a node twice is the same as adding it once. */
  lemma WithNodeIdempotent(g: Adjacency, n: Node)
    ensures WithNode(WithNode(g, n), n) == WithNode(g, n)
    ensures n in g ==> WithNode(g, n) == g
  {
  }

  /** Adding a node keeps every neighbour a node. */
  lemma WithNodeClosed(g: Adjacency, n: Node)
    requires Closed(g)
    ensures Closed(WithNode(g, n))
  {
  }

  /** Adding a node keeps an undirected store symmetric. */
  lemma WithNodeSymmetric(g: Adjacency, n: Node)
    requires Symmetric(g)
    ensures Symmetric(WithNode(g, n))
  {
  }

  lemma WithNodeNonNegative(g: Adjacency, n: Node)
    requires NonNegative(g)
    ensures NonNegative(WithNode(g, n))
  {
  }

  /** `r` is `g` with the edge `o -> d` of weight `w` added: both endpoints
      are nodes, the written entries hold `w`, and every other entry is as it
      was in `g`. */
  ghost predicate EdgeAdded(g: Adjacency, r: Adjacency, directed: bool, o: Node, d: Node, w: int)
  {
    && r.Keys == g.Keys + {o, d}
    && d in r[o] && r[o][d] == w
    && (!directed ==> o in r[d] && r[d][o] == w)
    && (forall u, v :: u in g && v in g[u] && !Written(directed, o, d, u, v) ==>
          v in r[u] && r[u][v] == g[u][v])
    && (forall u, v :: u in r && v in r[u] && !Written(directed, o, d, u, v) ==>
          u in g && v in g[u])
  }

  /** `WithEdge` adds the edge and touches nothing else. */
  lemma WithEdgeAdds(g: Adjacency, directed: bool, o: Node, d: Node, w: int)
    ensures EdgeAdded(g, WithEdge(g, directed, o, d, w), directed, o, d, w)
  {
    var k := WithNode(WithNode(g, o), d);
    var g1 := Put(k, o, d, w);
    var r := WithEdge(g, directed, o, d, w);
    assert r == if directed then g1 else Put(g1, d, o, w);
    forall u, v | u in g && v in g[u] && !Written(directed, o, d, u, v)
      ensures v in r[u] && r[u][v] == g[u][v]
    {
      assert k[u] == g[u];
      assert v in g1[u] && g1[u][v] == g[u][v];
    }
    forall u, v | u in r && v in r[u] && !Written(directed, o, d, u, v)
      ensures u in g && v in g[u]
    {
      assert v in g1[u];
      assert v in k[u];
    }
  }

  /** Adding an edge keeps every neighbour a node. */
  lemma WithEdgeClosed(g: Adjacency, directed: bool, o: Node, d: Node, w: int)
    requires Closed(g)
    ensures Closed(WithEdge(g, directed, o, d, w))
  {
    WithEdgeAdds(g, directed, o, d, w);
    AddedClosed(g, WithEdge(g, directed, o, d, w), directed, o, d, w);
  }

  /** Adding an edge of non-negative weight keeps every weight non-negative. */
  lemma WithEdgeNonNegative(g: Adjacency, directed: bool, o: Node, d: Node, w: int)
    requires NonNegative(g) && w >= 0
    ensures NonNegative(WithEdge(g, directed, o, d, w))
  {
    WithEdgeAdds(g, directed, o, d, w);
  }

  lemma AddedClosed(g: Adjacency, r: Adjacency, directed: bool, o: Node, d: Node, w: int)
    requires Closed(g) && EdgeAdded(g, r, directed, o, d, w)
    ensures Closed(r)
  {
    forall u, v | u in r && v in r[u]
      ensures v in r
    {
      if !Written(directed, o, d, u, v) {
        assert u in g && v in g[u];
      }
    }
  }

  /** Adding an edge to an undirected, symmetric store keeps it symmetric. */
  lemma WithEdgeSymmetric(g: Adjacency, o: Node, d: Node, w: int)
    requires Symmetric(g)
    ensures Symmetric(WithEdge(g, false, o, d, w))
  {
    WithEdgeAdds(g, false, o, d, w);
    AddedSymmetric(g, WithEdge(g, false, o, d, w), o, d, w);
  }

  lemma AddedSymmetric(g: Adjacency, r: Adjacency, o: Node, d: Node, w: int)
    requires Symmetric(g) && EdgeAdded(g, r, false, o, d, w)
    ensures Symmetric(r)
  {
    forall u, v | u in r && v in r[u]
      ensures v in r && u in r[v] && r[v][u] == r[u][v]
    {
      if Written(false, o, d, u, v) {
        assert r[u][v] == w && r[v][u] == w;
      } else {
        assert u in g && v in g[u];
        assert v in g && u in g[v] && g[v][u] == g[u][v];
        assert !Written(false, o, d, v, u);
      }
    }
  }

  /** Re-adding the pair `o -> d` overwrites its weight: the result is the
      same as having added only the latest edge. */
  lemma WithEdgeOverwrites(g: Adjacency, directed: bool, o: Node, d: Node, w1: int, w2: int)
    ensures WithEdge(WithEdge(g, directed, o, d, w1), directed, o, d, w2)
         == WithEdge(g, directed, o, d, w2)
  {
    var k := WithNode(WithNode(g, o), d);
    var g1 := WithEdge(g, directed, o, d, w1);
    assert WithNode(WithNode(g1, o), d) == g1;
    PutTwice(k, o, d, w1, w2);
    if !directed {
      var k1 := Put(k, o, d, w1);
      if o == d {
        PutTwice(k1, o, d, w1, w2);
        PutTwice(k, o, d, w1, w2);
      } else {
        PutCommutes(k1, d, o, w1, o, d, w2);
        PutTwice(Put(k1, o, d, w2), d, o, w1, w2);
      }
    }
  }

  /** A second assignment to the same entry wins. */
  lemma PutTwice(g: Adjacency, u: Node, v: Node, w1: int, w2: int)
    requires u in g
    ensures Put(Put(g, u, v, w1), u, v, w2) == Put(g, u, v, w2)
  {
    assert g[u][v := w1][v := w2] == g[u][v := w2];
  }

  /** Assignments to two different entries commute. */
  lemma PutCommutes(g: Adjacency, u: Node, v: Node, w: int, x: Node, y: Node, z: int)
    requires u in g && x in g && (u, v) != (x, y)
    ensures Put(Put(g, u, v, w), x, y, z) == Put(Put(g, x, y, z), u, v, w)
  {
    if u == x {
      assert g[u][v := w][y := z] == g[u][y := z][v := w];
    }
  }
}
