/** The class `Grafo`: a weighted adjacency map that is changed in place by
    its two mutators, and Dijkstra's shortest-path search over it. */
module Logica {
  import opened Graphs
  import opened Store
  import opened Paths
  import opened MinHeap
  import opened Search
  import opened Invariants

  /** One pass of the loop `while cola`: pops the smallest pair, skips it when
      its distance exceeds the node's current one, and otherwise relaxes the
      edges of its node. The invariant is kept, and either a node is newly
      settled or the queue shrinks. */
  method Iteracion(g: Adjacency, inicio: Node, dist: map<Node, Dist>, pred: map<Node, Option<Node>>,
                   cola: seq<Entry>, ghost orden: map<Node, nat>, ghost asentados: nat)
    returns (dist': map<Node, Dist>, pred': map<Node, Option<Node>>, cola': seq<Entry>,
             ghost orden': map<Node, nat>, ghost asentados': nat)
    requires Closed(g) && NonNegative(g) && cola != []
    requires Invariant(g, inicio, dist, pred, cola, orden, asentados)
    ensures Invariant(g, inicio, dist', pred', cola', orden', asentados')
    ensures g.Keys - orden'.Keys < g.Keys - orden.Keys
            || (orden'.Keys == orden.Keys && |cola'| < |cola|)
  {
    var actual, resto := PopMin(cola);
    var distanciaActual, nodoActual := actual.0, actual.1;
    if Exceeds(distanciaActual, dist[nodoActual]) {
      StalePop(g, inicio, dist, pred, cola, orden, asentados, actual, resto);
      dist', pred', cola', orden', asentados' := dist, pred, resto, orden, asentados;
    } else {
      dist', pred', cola' := RelajarVecinos(g, nodoActual, distanciaActual, dist, pred, resto);
      if nodoActual in orden {
        orden', asentados' := orden, asentados;
      } else {
        orden', asentados' := orden[nodoActual := asentados], asentados + 1;
        assert nodoActual in g.Keys - orden.Keys;
      }
      SettledPop(g, inicio, dist, pred, cola, orden, asentados, actual, resto, dist', pred', cola',
                 orden', asentados');
    }
  }

  /** The loop `while cola` with the state it starts from: the source at
      distance 0 and every other node at infinity, no predecessors, and the
      source alone in the queue. Once the queue is empty every edge is
      relaxed and the predecessor links fit the distances. */
  method Recorrer(g: Adjacency, inicio: Node)
    returns (dist: map<Node, Dist>, pred: map<Node, Option<Node>>, ghost orden: map<Node, nat>)
    requires Closed(g) && NonNegative(g) && inicio in g
    ensures dist.Keys == g.Keys && pred.Keys == g.Keys && Rooted(inicio, dist, pred)
    ensures Linked(g, dist, pred, orden) && Relaxed(g, dist)
  {
    dist := (map v | v in g :: Inf)[inicio := Fin(0)];
    pred := map v | v in g :: None;
    var cola: seq<Entry> := [(0, inicio)];
    orden := map[];
    ghost var asentados: nat := 0;
    Initial(g, inicio);

    while cola != []
      invariant Invariant(g, inicio, dist, pred, cola, orden, asentados)
      decreases g.Keys - orden.Keys, |cola|
    {
      dist, pred, cola, orden, asentados := Iteracion(g, inicio, dist, pred, cola, orden, asentados);
    }
    Drained(g, inicio, dist, pred, orden, asentados);
  }

  class Grafo {
    const dirigido: bool
    var grafo: Adjacency

    /** The store's invariant: neighbours are nodes, and an undirected store
        holds every edge in both directions with one weight. */
    ghost predicate Valid()
      reads this
    {
      Closed(grafo) && (!dirigido ==> Symmetric(grafo))
    }

    constructor (dirigido: bool := true)
      ensures this.dirigido == dirigido && grafo == map[]
      ensures Valid()
    {
      this.dirigido := dirigido;
      grafo := map[];
    }

    /** `agregar_nodo`: adds `nodo` with no neighbours unless it is present. */
    method AgregarNodo(nodo: Node)
      modifies this
      ensures grafo == WithNode(old(grafo), nodo)
      ensures old(Valid()) ==> Valid()
    {
      if nodo !in grafo {
        grafo := grafo[nodo := map[]];
      }
      if old(Valid()) {
        WithNodeClosed(old(grafo), nodo);
        if !dirigido {
          WithNodeSymmetric(old(grafo), nodo);
        }
      }
    }

    /** `agregar_arista`: adds both endpoints, then writes the weight of
        `origen -> destino`, and of `destino -> origen` when undirected. */
    method AgregarArista(origen: Node, destino: Node, peso: int)
      modifies this
      ensures grafo == WithEdge(old(grafo), dirigido, origen, destino, peso)
      ensures old(Valid()) ==> Valid()
    {
      AgregarNodo(origen);
      AgregarNodo(destino);
      grafo := Put(grafo, origen, destino, peso);
      if !dirigido {
        grafo := Put(grafo, destino, origen, peso);
      }
      if old(Valid()) {
        WithEdgeClosed(old(grafo), dirigido, origen, destino, peso);
        if !dirigido {
          WithEdgeSymmetric(old(grafo), origen, destino, peso);
        }
      }
    }

    /** `dijkstra(inicio, fin)`: the distance of `fin` from `inicio` and the
        path rebuilt from the predecessors. */
    method Dijkstra(inicio: Node, fin: Node) returns (distancia: Dist, camino: seq<Node>)
      requires Closed(grafo) && NonNegative(grafo)
      requires inicio in grafo && fin in grafo
      ensures IsWalk(grafo, camino) && camino[|camino| - 1] == fin
      ensures distancia.Fin? ==>
                IsPath(grafo, camino, inicio, fin) && PathWeight(grafo, camino) == distancia.n
      ensures distancia.Fin? ==>
                forall p :: IsPath(grafo, p, inicio, fin) ==> distancia.n <= PathWeight(grafo, p)
      ensures distancia.Inf? ==> camino == [fin] && forall p :: !IsPath(grafo, p, inicio, fin)
      ensures inicio == fin ==> distancia == Fin(0) && camino == [inicio]
    {
      var g := grafo;
      var distancias, predecesores, orden := Recorrer(g, inicio);
      camino := ReconstruirCamino(g, distancias, predecesores, fin, orden);
      distancia := distancias[fin];
      Outcome(g, inicio, fin, distancias, predecesores, orden, camino);
    }
  }
}
