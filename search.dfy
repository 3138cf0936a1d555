/** The loop over the neighbours inside `while cola` of `dijkstra` (the
    relaxation of the popped node's edges), and the walk back along the
    predecessors that follows `while cola`, with the link
    property (`Linked`) that makes that walk terminate. `orden` (ghost) maps
    each settled node, i.e. each node that has been popped with its current
    distance, to the position at which it was settled. */
module Search {
  import opened Graphs
  import opened Paths
  import opened MinHeap

  /** Relaxing the edge `u -> v` from distance `du` lowers `v`'s distance. */
  ghost predicate Improved(g: Adjacency, u: Node, du: int, dist: map<Node, Dist>, v: Node)
  {
    u in g && v in g[u] && v in dist && Lowers(du + g[u][v], dist[v])
  }

  /** What the loop over the neighbours of `u` (popped with distance `du`)
      leaves behind: each neighbour whose distance the edge lowers gets the
      new distance and `u` as predecessor, every other node keeps both, and
      the queue gains exactly one entry per lowered neighbour. */
  ghost predicate Relaxation(g: Adjacency, u: Node, du: int,
                             dist: map<Node, Dist>, pred: map<Node, Option<Node>>, cola: seq<Entry>,
                             dist': map<Node, Dist>, pred': map<Node, Option<Node>>, cola': seq<Entry>)
  {
    && dist'.Keys == dist.Keys && pred'.Keys == pred.Keys
    && (forall v :: v in dist ==>
          dist'[v] == if Improved(g, u, du, dist, v) then Fin(du + g[u][v]) else dist[v])
    && (forall v :: v in pred ==>
          pred'[v] == if Improved(g, u, du, dist, v) then Some(u) else pred[v])
    && Queued(g, u, du, dist, cola, cola')
  }

  /** `cola'` is `cola` followed by exactly one entry per neighbour of `u`
      whose distance the edge from `u` lowers, holding the lowered distance. */
  ghost predicate Queued(g: Adjacency, u: Node, du: int, dist: map<Node, Dist>,
                         cola: seq<Entry>, cola': seq<Entry>)
  {
    && |cola| <= |cola'| && cola'[..|cola|] == cola
    && (forall e :: e in cola'[|cola|..] ==> Improved(g, u, du, dist, e.1) && e.0 == du + g[u][e.1])
    && (forall i, j :: |cola| <= i < j < |cola'| ==> cola'[i].1 != cola'[j].1)
    && (forall v :: Improved(g, u, du, dist, v) ==> (du + g[u][v], v) in cola'[|cola|..])
  }

  /** Relaxation only ever lowers a distance, and only for a neighbour of
      `u`, which then gets `u` as its predecessor. */
  lemma RelaxationLowers(g: Adjacency, u: Node, du: int,
                         dist: map<Node, Dist>, pred: map<Node, Option<Node>>, cola: seq<Entry>,
                         dist': map<Node, Dist>, pred': map<Node, Option<Node>>, cola': seq<Entry>)
    requires pred.Keys == dist.Keys
    requires Relaxation(g, u, du, dist, pred, cola, dist', pred', cola')
    ensures forall v :: v in dist ==> dist'[v] == dist[v] || (dist'[v].Fin? && Lowers(dist'[v].n, dist[v]))
    ensures forall v :: v in dist && dist'[v] != dist[v] ==>
              u in g && v in g[u] && dist'[v] == Fin(du + g[u][v]) && pred'[v] == Some(u)
    ensures forall v :: v in pred && pred'[v] != pred[v] ==> u in g && v in g[u] && pred'[v] == Some(u)
  {
    forall v | v in dist && dist'[v] != dist[v]
      ensures Improved(g, u, du, dist, v)
    {
    }
  }

  /** The loop `for vecino, peso in self.grafo[nodo_actual].items()`. */
  method RelajarVecinos(g: Adjacency, u: Node, du: int, dist: map<Node, Dist>,
                        pred: map<Node, Option<Node>>, cola: seq<Entry>)
    returns (dist': map<Node, Dist>, pred': map<Node, Option<Node>>, cola': seq<Entry>)
    requires u in g && g[u].Keys <= dist.Keys && pred.Keys == dist.Keys
    ensures Relaxation(g, u, du, dist, pred, cola, dist', pred', cola')
  {
    dist', pred', cola' := dist, pred, cola;
    ghost var empujados: seq<Entry> := [];
    var pendientes := g[u].Keys;
    while pendientes != {}
      invariant Progress(g, u, du, dist, pred, cola, pendientes, dist', pred', cola', empujados)
      decreases pendientes
    {
      var vecino :| vecino in pendientes;
      var nuevaDistancia := du + g[u][vecino];
      ghost var d0, p0, c0, e0, resto := dist', pred', cola', empujados, pendientes;
      if Lowers(nuevaDistancia, dist'[vecino]) {
        dist' := dist'[vecino := Fin(nuevaDistancia)];
        pred' := pred'[vecino := Some(u)];
        cola' := cola' + [(nuevaDistancia, vecino)];
        empujados := empujados + [(nuevaDistancia, vecino)];
      }
      pendientes := pendientes - {vecino};
      Step(g, u, du, dist, pred, cola, resto, d0, p0, c0, e0, vecino,
           pendientes, dist', pred', cola', empujados);
    }
    RelaxationDone(g, u, du, dist, pred, cola, empujados, dist', pred');
  }

  /** The state of the loop over the neighbours of `u` once those outside
      `pendientes` have been handled; `empujados` (ghost) are the pairs pushed
      so far. */
  ghost predicate Progress(g: Adjacency, u: Node, du: int, dist: map<Node, Dist>,
                           pred: map<Node, Option<Node>>, cola: seq<Entry>, pendientes: set<Node>,
                           dist': map<Node, Dist>, pred': map<Node, Option<Node>>, cola': seq<Entry>,
                           empujados: seq<Entry>)
  {
    && u in g && pendientes <= g[u].Keys
    && MapsSoFar(g, u, du, dist, pred, pendientes, dist', pred')
    && cola' == cola + empujados
    && PushedSoFar(g, u, du, dist, pendientes, empujados)
  }

  /** One neighbour handled. */
  lemma Step(g: Adjacency, u: Node, du: int, dist: map<Node, Dist>, pred: map<Node, Option<Node>>,
             cola: seq<Entry>, pendientes: set<Node>, dist': map<Node, Dist>, pred': map<Node, Option<Node>>,
             cola': seq<Entry>, empujados: seq<Entry>, vecino: Node,
             pendientes'': set<Node>, dist'': map<Node, Dist>, pred'': map<Node, Option<Node>>,
             cola'': seq<Entry>, empujados'': seq<Entry>)
    requires u in g && g[u].Keys <= dist.Keys && pred.Keys == dist.Keys
    requires Progress(g, u, du, dist, pred, cola, pendientes, dist', pred', cola', empujados)
    requires vecino in pendientes && pendientes'' == pendientes - {vecino}
    requires Lowers(du + g[u][vecino], dist'[vecino]) ==>
               && dist'' == dist'[vecino := Fin(du + g[u][vecino])]
               && pred'' == pred'[vecino := Some(u)]
               && cola'' == cola' + [(du + g[u][vecino], vecino)]
               && empujados'' == empujados + [(du + g[u][vecino], vecino)]
    requires !Lowers(du + g[u][vecino], dist'[vecino]) ==>
               dist'' == dist' && pred'' == pred' && cola'' == cola' && empujados'' == empujados
    ensures Progress(g, u, du, dist, pred, cola, pendientes'', dist'', pred'', cola'', empujados'')
  {
    assert dist'[vecino] == dist[vecino];
    var mejora := Lowers(du + g[u][vecino], dist[vecino]);
    if mejora {
      assert cola' + [(du + g[u][vecino], vecino)] == cola + (empujados + [(du + g[u][vecino], vecino)]);
    }
    MapsStep(g, u, du, dist, pred, pendientes, dist', pred', vecino, mejora, pendientes'', dist'', pred'');
    PushedStep(g, u, du, dist, pendientes, empujados, vecino, mejora, pendientes'', empujados'');
  }

  /** The distances and predecessors once the neighbours outside `pendientes`
      have been handled. */
  ghost predicate MapsSoFar(g: Adjacency, u: Node, du: int, dist: map<Node, Dist>,
                            pred: map<Node, Option<Node>>, pendientes: set<Node>,
                            dist': map<Node, Dist>, pred': map<Node, Option<Node>>)
  {
    && dist'.Keys == dist.Keys && pred'.Keys == pred.Keys
    && (forall v :: v in dist ==>
          dist'[v] == if Improved(g, u, du, dist, v) && v !in pendientes then Fin(du + g[u][v]) else dist[v])
    && (forall v :: v in pred ==>
          pred'[v] == if Improved(g, u, du, dist, v) && v !in pendientes then Some(u) else pred[v])
  }

  /** The entries pushed once the neighbours outside `pendientes` have been
      handled: one per lowered neighbour. */
  ghost predicate PushedSoFar(g: Adjacency, u: Node, du: int, dist: map<Node, Dist>,
                              pendientes: set<Node>, empujados: seq<Entry>)
  {
    && (forall e :: e in empujados ==>
          Improved(g, u, du, dist, e.1) && e.1 !in pendientes && e.0 == du + g[u][e.1])
    && (forall i, j :: 0 <= i < j < |empujados| ==> empujados[i].1 != empujados[j].1)
    && (forall v :: Improved(g, u, du, dist, v) && v !in pendientes ==> (du + g[u][v], v) in empujados)
  }

  lemma MapsStep(g: Adjacency, u: Node, du: int, dist: map<Node, Dist>, pred: map<Node, Option<Node>>,
                 pendientes: set<Node>, dist': map<Node, Dist>, pred': map<Node, Option<Node>>, vecino: Node,
                 mejora: bool, pendientes'': set<Node>, dist'': map<Node, Dist>, pred'': map<Node, Option<Node>>)
    requires u in g && pendientes <= g[u].Keys && g[u].Keys <= dist.Keys && pred.Keys == dist.Keys
    requires vecino in pendientes && MapsSoFar(g, u, du, dist, pred, pendientes, dist', pred')
    requires pendientes'' == pendientes - {vecino}
    requires mejora == Lowers(du + g[u][vecino], dist[vecino])
    requires mejora ==>
               dist'' == dist'[vecino := Fin(du + g[u][vecino])] && pred'' == pred'[vecino := Some(u)]
    requires !mejora ==> dist'' == dist' && pred'' == pred'
    ensures MapsSoFar(g, u, du, dist, pred, pendientes'', dist'', pred'')
  {
    assert dist'[vecino] == dist[vecino];
  }

  lemma PushedStep(g: Adjacency, u: Node, du: int, dist: map<Node, Dist>,
                   pendientes: set<Node>, empujados: seq<Entry>, vecino: Node, mejora: bool,
                   pendientes'': set<Node>, empujados'': seq<Entry>)
    requires u in g && pendientes <= g[u].Keys && g[u].Keys <= dist.Keys
    requires vecino in pendientes && PushedSoFar(g, u, du, dist, pendientes, empujados)
    requires pendientes'' == pendientes - {vecino}
    requires mejora == Lowers(du + g[u][vecino], dist[vecino])
    requires empujados'' == if mejora then empujados + [(du + g[u][vecino], vecino)] else empujados
    ensures PushedSoFar(g, u, du, dist, pendientes'', empujados'')
  {
    if mejora {
      forall i, j | 0 <= i < j < |empujados''|
        ensures empujados''[i].1 != empujados''[j].1
      {
        if j == |empujados| {
          assert empujados''[i] in empujados;
        }
      }
    }
  }

  /** Once no neighbour is pending, the loop has done a whole relaxation. */
  lemma RelaxationDone(g: Adjacency, u: Node, du: int, dist: map<Node, Dist>, pred: map<Node, Option<Node>>,
                       cola: seq<Entry>, empujados: seq<Entry>,
                       dist': map<Node, Dist>, pred': map<Node, Option<Node>>)
    requires MapsSoFar(g, u, du, dist, pred, {}, dist', pred')
    requires PushedSoFar(g, u, du, dist, {}, empujados)
    ensures Relaxation(g, u, du, dist, pred, cola, dist', pred', cola + empujados)
  {
    PushedDone(g, u, du, dist, cola, empujados);
  }

  lemma PushedDone(g: Adjacency, u: Node, du: int, dist: map<Node, Dist>,
                   cola: seq<Entry>, empujados: seq<Entry>)
    requires PushedSoFar(g, u, du, dist, {}, empujados)
    ensures Queued(g, u, du, dist, cola, cola + empujados)
  {
    var cola' := cola + empujados;
    assert cola'[..|cola|] == cola;
    assert cola'[|cola|..] == empujados;
    forall i, j | |cola| <= i < j < |cola'|
      ensures cola'[i].1 != cola'[j].1
    {
      assert cola'[i] == empujados[i - |cola|] && cola'[j] == empujados[j - |cola|];
    }
  }

  /** Each node after the first of `p` has the node before it as predecessor. */
  ghost predicate PredChain(pred: map<Node, Option<Node>>, p: seq<Node>)
    decreases |p|
  {
    |p| > 1 ==> p[1] in pred && pred[p[1]] == Some(p[0]) && PredChain(pred, p[1..])
  }

  /** Every predecessor link is an edge whose weight accounts for the
      difference of the two distances, and goes to a node settled earlier. */
  ghost predicate Linked(g: Adjacency, dist: map<Node, Dist>, pred: map<Node, Option<Node>>,
                         orden: map<Node, nat>)
  {
    forall v :: v in pred && pred[v].Some? ==>
      var u := pred[v].value;
      u in g && v in g[u] && u in dist && v in dist && dist[u].Fin?
      && dist[v] == Fin(dist[u].n + g[u][v])
      && u in orden && v in orden && orden[u] < orden[v]
  }

  /** The walk back from `fin` along `pred` (`while nodo is not None`),
      prepending each node to `camino`. */
  method ReconstruirCamino(ghost g: Adjacency, ghost dist: map<Node, Dist>,
                           pred: map<Node, Option<Node>>, fin: Node, ghost orden: map<Node, nat>)
    returns (camino: seq<Node>)
    requires fin in g && pred.Keys == g.Keys && dist.Keys == g.Keys
    requires Linked(g, dist, pred, orden)
    ensures IsWalk(g, camino) && camino[|camino| - 1] == fin
    ensures pred[camino[0]] == None && PredChain(pred, camino)
    ensures dist[fin].Fin? ==>
              dist[camino[0]].Fin? && dist[fin].n == dist[camino[0]].n + PathWeight(g, camino)
  {
    camino := [];
    var nodo: Option<Node> := Some(fin);
    while nodo.Some?
      invariant nodo.Some? ==> nodo.value in g
      invariant camino == [] ==> nodo == Some(fin)
      invariant camino != [] ==>
                  IsWalk(g, camino) && camino[|camino| - 1] == fin && pred[camino[0]] == nodo
                  && PredChain(pred, camino)
      invariant camino != [] && dist[fin].Fin? ==>
                  dist[camino[0]].Fin? && dist[fin].n == dist[camino[0]].n + PathWeight(g, camino)
      decreases if nodo.Some? && nodo.value in orden then orden[nodo.value] + 1
                else if nodo.Some? then 1 else 0
    {
      var v := nodo.value;
      if camino != [] {
        PrependWalk(g, v, camino);
        assert ([v] + camino)[1..] == camino;
      }
      camino := [v] + camino;
      nodo := pred[v];
    }
  }
}
