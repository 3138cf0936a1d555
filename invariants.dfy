/** The invariants of the outer `while cola` loop of `dijkstra`, that each
    pop preserves them, and what they give once the queue is empty.
    `orden` (ghost) maps each settled node, i.e. each node that has been popped
    with its current distance, to the position at which it was settled;
    `asentados` counts the settled nodes. */
module Invariants {
  import opened Graphs
  import opened Paths
  import opened MinHeap
  import opened Search


  /** Every queued pair names a node whose distance is finite and no larger. */
  ghost predicate QueueSound(dist: map<Node, Dist>, cola: seq<Entry>)
  {
    forall e :: e in cola ==> e.1 in dist && dist[e.1].Fin? && dist[e.1].n <= e.0
  }

  /** Every unsettled node with a finite distance has that distance queued. */
  ghost predicate Pending(dist: map<Node, Dist>, cola: seq<Entry>, orden: map<Node, nat>)
  {
    forall v :: v in dist && v !in orden && dist[v].Fin? ==> (dist[v].n, v) in cola
  }

  /** Settled nodes have finite distances no larger than anything queued. */
  ghost predicate SettledFirst(dist: map<Node, Dist>, cola: seq<Entry>, orden: map<Node, nat>)
  {
    && (forall x :: x in orden ==> x in dist && dist[x].Fin?)
    && (forall x, e :: x in orden && e in cola ==> dist[x].n <= e.0)
  }

  /** The edges leaving settled nodes are relaxed. */
  ghost predicate SettledRelaxed(g: Adjacency, dist: map<Node, Dist>, orden: map<Node, nat>)
  {
    forall x, y :: x in orden && x in g && y in g[x] ==>
      x in dist && dist[x].Fin? && y in dist && dist[y].Fin? && dist[y].n <= dist[x].n + g[x][y]
  }

  /** Predecessor links are weighted edges from settled nodes, and between two
      settled nodes they point to the one settled first. */
  ghost predicate PredSound(g: Adjacency, dist: map<Node, Dist>, pred: map<Node, Option<Node>>,
                            orden: map<Node, nat>)
  {
    forall v :: v in pred && pred[v].Some? ==>
      var u := pred[v].value;
      u in orden && u in g && v in g[u] && u in dist && dist[u].Fin? && v in dist
      && dist[v] == Fin(dist[u].n + g[u][v])
      && (v in orden ==> orden[u] < orden[v])
  }

  /** The source keeps distance 0 and no predecessor; it is the only node with
      a finite distance and no predecessor; no distance is negative. */
  ghost predicate Rooted(s: Node, dist: map<Node, Dist>, pred: map<Node, Option<Node>>)
  {
    && s in dist && dist[s] == Fin(0) && s in pred && pred[s] == None
    && (forall v :: v in pred && pred[v].None? && v in dist && dist[v].Fin? ==> v == s)
    && (forall v :: v in dist && dist[v].Fin? ==> dist[v].n >= 0)
  }

  /** All invariants of the outer loop together. */
  ghost predicate Invariant(g: Adjacency, s: Node, dist: map<Node, Dist>, pred: map<Node, Option<Node>>,
                            cola: seq<Entry>, orden: map<Node, nat>, asentados: nat)
  {
    && dist.Keys == g.Keys && pred.Keys == g.Keys && orden.Keys <= g.Keys
    && QueueSound(dist, cola)
    && Pending(dist, cola, orden)
    && SettledFirst(dist, cola, orden)
    && SettledRelaxed(g, dist, orden)
    && PredSound(g, dist, pred, orden)
    && Rooted(s, dist, pred)
    && (forall x :: x in orden ==> orden[x] < asentados)
  }

  /** The state before the first iteration satisfies the invariant. */
  lemma Initial(g: Adjacency, s: Node)
    requires s in g
    ensures Invariant(g, s, (map v | v in g :: Inf)[s := Fin(0)], map v | v in g :: None,
                      [(0, s)], map[], 0)
  {
  }

  /** What removing `actual` from `cola` leaves in `resto`. */
  lemma Removed(cola: seq<Entry>, actual: Entry, resto: seq<Entry>)
    requires multiset(cola) == multiset(resto) + multiset{actual}
    ensures forall e :: e in resto ==> e in cola
    ensures forall e :: e in cola && e != actual ==> e in resto
  {
    forall e | e in resto
      ensures e in cola
    {
      assert e in multiset(resto);
      assert multiset(cola)[e] == multiset(resto)[e] + multiset{actual}[e];
      assert e in multiset(cola);
    }
    forall e | e in cola && e != actual
      ensures e in resto
    {
      assert e in multiset(cola);
      assert multiset(cola)[e] == multiset(resto)[e] + multiset{actual}[e];
      assert e in multiset(resto);
    }
  }

  /** Popping a stale entry (its distance exceeds the node's) and dropping it
      keeps the invariant. */
  lemma StalePop(g: Adjacency, s: Node, dist: map<Node, Dist>, pred: map<Node, Option<Node>>,
                 cola: seq<Entry>, orden: map<Node, nat>, asentados: nat,
                 actual: Entry, resto: seq<Entry>)
    requires Invariant(g, s, dist, pred, cola, orden, asentados)
    requires multiset(cola) == multiset(resto) + multiset{actual}
    requires actual.1 in dist && Exceeds(actual.0, dist[actual.1])
    ensures Invariant(g, s, dist, pred, resto, orden, asentados)
  {
    Removed(cola, actual, resto);
    forall v | v in dist && v !in orden && dist[v].Fin?
      ensures (dist[v].n, v) in resto
    {
      assert (dist[v].n, v) in cola;
    }
  }

  /** The nodes of `orden` are at most `du` away, so relaxing the edges of
      `u` from `du` lowers none of them. */
  ghost predicate NotLowered(g: Adjacency, u: Node, du: int, dist: map<Node, Dist>, orden: map<Node, nat>)
  {
    forall x :: x in orden ==> x in dist && dist[x].Fin? && dist[x].n <= du && !Improved(g, u, du, dist, x)
  }

  lemma SettledNotLowered(g: Adjacency, u: Node, du: int, dist: map<Node, Dist>, cola: seq<Entry>,
                          orden: map<Node, nat>, orden': map<Node, nat>)
    requires NonNegative(g) && SettledFirst(dist, cola, orden)
    requires (du, u) in cola && u in dist && dist[u] == Fin(du)
    requires orden'.Keys == orden.Keys + {u}
    ensures NotLowered(g, u, du, dist, orden')
  {
    forall x | x in orden'
      ensures x in dist && dist[x].Fin? && dist[x].n <= du
    {
      if x != u {
        assert x in orden;
      }
    }
  }

  lemma KeepQueueSound(g: Adjacency, u: Node, du: int, dist: map<Node, Dist>, pred: map<Node, Option<Node>>,
                       cola: seq<Entry>, resto: seq<Entry>,
                       dist': map<Node, Dist>, pred': map<Node, Option<Node>>, cola': seq<Entry>)
    requires QueueSound(dist, cola) && (forall e :: e in resto ==> e in cola)
    requires Relaxation(g, u, du, dist, pred, resto, dist', pred', cola')
    ensures QueueSound(dist', cola')
  {
    assert cola' == resto + cola'[|resto|..];
    forall e | e in cola'
      ensures e.1 in dist' && dist'[e.1].Fin? && dist'[e.1].n <= e.0
    {
      if e in resto {
        assert e in cola;
      } else {
        assert e in cola'[|resto|..];
      }
    }
  }

  lemma KeepPending(g: Adjacency, u: Node, du: int, dist: map<Node, Dist>, pred: map<Node, Option<Node>>,
                    cola: seq<Entry>, orden: map<Node, nat>, orden': map<Node, nat>,
                    actual: Entry, resto: seq<Entry>,
                    dist': map<Node, Dist>, pred': map<Node, Option<Node>>, cola': seq<Entry>)
    requires Pending(dist, cola, orden) && orden'.Keys == orden.Keys + {u} && actual.1 == u
    requires forall e :: e in cola && e != actual ==> e in resto
    requires Relaxation(g, u, du, dist, pred, resto, dist', pred', cola')
    ensures Pending(dist', cola', orden')
  {
    assert cola' == resto + cola'[|resto|..];
    forall v | v in dist' && v !in orden' && dist'[v].Fin?
      ensures (dist'[v].n, v) in cola'
    {
      if !Improved(g, u, du, dist, v) {
        assert (dist[v].n, v) in cola;
        assert (dist[v].n, v) in resto;
      }
    }
  }

  lemma KeepSettledFirst(g: Adjacency, u: Node, du: int, dist: map<Node, Dist>, pred: map<Node, Option<Node>>,
                         orden': map<Node, nat>, resto: seq<Entry>,
                         dist': map<Node, Dist>, pred': map<Node, Option<Node>>, cola': seq<Entry>)
    requires NonNegative(g) && NotLowered(g, u, du, dist, orden')
    requires forall e :: e in resto ==> du <= e.0
    requires Relaxation(g, u, du, dist, pred, resto, dist', pred', cola')
    ensures SettledFirst(dist', cola', orden')
  {
    assert cola' == resto + cola'[|resto|..];
    forall x, e | x in orden' && e in cola'
      ensures dist'[x].n <= e.0
    {
      if e !in resto {
        assert e in cola'[|resto|..];
      }
    }
  }

  lemma KeepSettledRelaxed(g: Adjacency, u: Node, du: int, dist: map<Node, Dist>, pred: map<Node, Option<Node>>,
                           orden: map<Node, nat>, orden': map<Node, nat>, resto: seq<Entry>,
                           dist': map<Node, Dist>, pred': map<Node, Option<Node>>, cola': seq<Entry>)
    requires SettledRelaxed(g, dist, orden) && orden'.Keys == orden.Keys + {u}
    requires u in g && g[u].Keys <= dist.Keys && u in dist && dist[u] == Fin(du)
    requires NotLowered(g, u, du, dist, orden')
    requires Relaxation(g, u, du, dist, pred, resto, dist', pred', cola')
    ensures SettledRelaxed(g, dist', orden')
  {
    forall x, y | x in orden' && x in g && y in g[x]
      ensures x in dist' && dist'[x].Fin? && y in dist' && dist'[y].Fin?
              && dist'[y].n <= dist'[x].n + g[x][y]
    {
      if x != u {
        assert y in dist;
      }
    }
  }

  lemma KeepPredSound(g: Adjacency, u: Node, du: int, dist: map<Node, Dist>, pred: map<Node, Option<Node>>,
                      orden: map<Node, nat>, asentados: nat, orden': map<Node, nat>, resto: seq<Entry>,
                      dist': map<Node, Dist>, pred': map<Node, Option<Node>>, cola': seq<Entry>)
    requires PredSound(g, dist, pred, orden) && (forall x :: x in orden ==> orden[x] < asentados)
    requires orden' == if u in orden then orden else orden[u := asentados]
    requires u in dist && dist[u] == Fin(du) && NotLowered(g, u, du, dist, orden')
    requires Relaxation(g, u, du, dist, pred, resto, dist', pred', cola')
    ensures PredSound(g, dist', pred', orden')
  {
    forall v | v in pred' && pred'[v].Some?
      ensures var w := pred'[v].value;
              w in orden' && w in g && v in g[w] && w in dist' && dist'[w].Fin? && v in dist'
              && dist'[v] == Fin(dist'[w].n + g[w][v])
              && (v in orden' ==> orden'[w] < orden'[v])
    {
      if !Improved(g, u, du, dist, v) {
        var w := pred[v].value;
        assert w in orden;
      }
    }
  }

  lemma KeepRooted(g: Adjacency, s: Node, u: Node, du: int, dist: map<Node, Dist>, pred: map<Node, Option<Node>>,
                   resto: seq<Entry>, dist': map<Node, Dist>, pred': map<Node, Option<Node>>, cola': seq<Entry>)
    requires Rooted(s, dist, pred) && du >= 0 && NonNegative(g)
    requires Relaxation(g, u, du, dist, pred, resto, dist', pred', cola')
    ensures Rooted(s, dist', pred')
  {
    assert !Improved(g, u, du, dist, s);
  }

  /** Relaxing the edges of a node whose edges are already relaxed pushes
      nothing. */
  lemma NothingPushed(g: Adjacency, u: Node, du: int, dist: map<Node, Dist>, pred: map<Node, Option<Node>>,
                      resto: seq<Entry>, dist': map<Node, Dist>, pred': map<Node, Option<Node>>, cola': seq<Entry>)
    requires u in g && g[u].Keys <= dist.Keys
    requires forall v :: v in g[u] ==> dist[v].Fin? && dist[v].n <= du + g[u][v]
    requires Relaxation(g, u, du, dist, pred, resto, dist', pred', cola')
    ensures cola' == resto
  {
    var pushed := cola'[|resto|..];
    assert forall e :: e !in pushed;
    assert multiset(pushed) == multiset{};
    assert cola' == resto + pushed;
  }

  lemma PopPrelude(g: Adjacency, s: Node, dist: map<Node, Dist>, pred: map<Node, Option<Node>>,
                   cola: seq<Entry>, orden: map<Node, nat>, asentados: nat,
                   actual: Entry, resto: seq<Entry>, orden': map<Node, nat>)
    requires NonNegative(g)
    requires Invariant(g, s, dist, pred, cola, orden, asentados)
    requires actual in cola && forall e :: e in cola ==> EntryLe(actual, e)
    requires multiset(cola) == multiset(resto) + multiset{actual}
    requires actual.1 in dist && !Exceeds(actual.0, dist[actual.1])
    requires orden'.Keys == orden.Keys + {actual.1}
    ensures dist[actual.1] == Fin(actual.0)
    ensures forall e :: e in resto ==> e in cola && actual.0 <= e.0
    ensures forall e :: e in cola && e != actual ==> e in resto
    ensures NotLowered(g, actual.1, actual.0, dist, orden')
  {
    Removed(cola, actual, resto);
    forall e | e in resto
      ensures actual.0 <= e.0
    {
      assert EntryLe(actual, e);
    }
    SettledNotLowered(g, actual.1, actual.0, dist, cola, orden, orden');
  }

  /** Settling `u` keeps `orden` within the nodes and below the counter. */
  lemma Counted(g: Adjacency, orden: map<Node, nat>, asentados: nat, u: Node,
                orden': map<Node, nat>, asentados': nat)
    requires orden.Keys <= g.Keys && u in g && forall x :: x in orden ==> orden[x] < asentados
    requires orden' == if u in orden then orden else orden[u := asentados]
    requires asentados' == if u in orden then asentados else asentados + 1
    ensures orden'.Keys == orden.Keys + {u} && orden'.Keys <= g.Keys
    ensures forall x :: x in orden' ==> orden'[x] < asentados'
  {
  }

  /** Popping an entry that is not stale, settling its node and relaxing its
      edges keeps the invariant; if the node was already settled, nothing is
      pushed. */
  lemma SettledPop(g: Adjacency, s: Node, dist: map<Node, Dist>, pred: map<Node, Option<Node>>,
                   cola: seq<Entry>, orden: map<Node, nat>, asentados: nat,
                   actual: Entry, resto: seq<Entry>,
                   dist': map<Node, Dist>, pred': map<Node, Option<Node>>, cola': seq<Entry>,
                   orden': map<Node, nat>, asentados': nat)
    requires Closed(g) && NonNegative(g)
    requires Invariant(g, s, dist, pred, cola, orden, asentados)
    requires actual in cola && forall e :: e in cola ==> EntryLe(actual, e)
    requires multiset(cola) == multiset(resto) + multiset{actual}
    requires actual.1 in dist && !Exceeds(actual.0, dist[actual.1])
    requires Relaxation(g, actual.1, actual.0, dist, pred, resto, dist', pred', cola')
    requires orden' == if actual.1 in orden then orden else orden[actual.1 := asentados]
    requires asentados' == if actual.1 in orden then asentados else asentados + 1
    ensures Invariant(g, s, dist', pred', cola', orden', asentados')
    ensures actual.1 in orden ==> cola' == resto
  {
    var u, du := actual.1, actual.0;
    Counted(g, orden, asentados, u, orden', asentados');
    PopPrelude(g, s, dist, pred, cola, orden, asentados, actual, resto, orden');
    KeepQueueSound(g, u, du, dist, pred, cola, resto, dist', pred', cola');
    KeepPending(g, u, du, dist, pred, cola, orden, orden', actual, resto, dist', pred', cola');
    KeepSettledFirst(g, u, du, dist, pred, orden', resto, dist', pred', cola');
    KeepSettledRelaxed(g, u, du, dist, pred, orden, orden', resto, dist', pred', cola');
    KeepPredSound(g, u, du, dist, pred, orden, asentados, orden', resto, dist', pred', cola');
    KeepRooted(g, s, u, du, dist, pred, resto, dist', pred', cola');
    if u in orden {
      NothingPushed(g, u, du, dist, pred, resto, dist', pred', cola');
    }
  }

  /** Each node after the first of a predecessor chain is linked to the one
      before it; in particular the last one. */
  lemma {:induction false} PredChainLast(pred: map<Node, Option<Node>>, p: seq<Node>)
    requires PredChain(pred, p) && |p| > 1
    ensures p[|p| - 1] in pred && pred[p[|p| - 1]] == Some(p[|p| - 2])
    decreases |p|
  {
    if |p| > 2 {
      PredChainLast(pred, p[1..]);
    }
  }

  /** Once the queue is empty every node with a finite distance is settled,
      so the predecessor links suit the backward walk and every edge is
      relaxed. */
  lemma Drained(g: Adjacency, s: Node, dist: map<Node, Dist>, pred: map<Node, Option<Node>>,
                orden: map<Node, nat>, asentados: nat)
    requires Invariant(g, s, dist, pred, [], orden, asentados)
    ensures dist.Keys == g.Keys && pred.Keys == g.Keys && Rooted(s, dist, pred)
    ensures Linked(g, dist, pred, orden)
    ensures Relaxed(g, dist)
  {
    AllSettled(dist, orden);
    DrainedLinked(g, dist, pred, orden);
    DrainedRelaxed(g, dist, orden);
  }

  lemma AllSettled(dist: map<Node, Dist>, orden: map<Node, nat>)
    requires Pending(dist, [], orden)
    ensures forall v :: v in dist && dist[v].Fin? ==> v in orden
  {
    forall v | v in dist && dist[v].Fin?
      ensures v in orden
    {
      assert !((dist[v].n, v) in []);
    }
  }

  lemma DrainedLinked(g: Adjacency, dist: map<Node, Dist>, pred: map<Node, Option<Node>>,
                      orden: map<Node, nat>)
    requires PredSound(g, dist, pred, orden)
    requires forall v :: v in dist && dist[v].Fin? ==> v in orden
    ensures Linked(g, dist, pred, orden)
  {
    forall v | v in pred && pred[v].Some?
      ensures v in orden
    {
      assert dist[v].Fin?;
    }
  }

  lemma DrainedRelaxed(g: Adjacency, dist: map<Node, Dist>, orden: map<Node, nat>)
    requires SettledRelaxed(g, dist, orden)
    requires forall v :: v in dist && dist[v].Fin? ==> v in orden
    ensures Relaxed(g, dist)
  {
    forall x, y | x in g && y in g[x] && x in dist && dist[x].Fin?
      ensures y in dist && dist[y].Fin? && dist[y].n <= dist[x].n + g[x][y]
    {
      assert x in orden;
    }
  }

  /** The distance of `t` at the end is the weight of the rebuilt path, no
      walk from `s` to `t` is lighter, and an infinite distance means that no
      walk exists and the path is `[t]` alone. */
  lemma Outcome(g: Adjacency, s: Node, t: Node, dist: map<Node, Dist>, pred: map<Node, Option<Node>>,
                orden: map<Node, nat>, camino: seq<Node>)
    requires dist.Keys == g.Keys && pred.Keys == g.Keys && Rooted(s, dist, pred)
    requires Linked(g, dist, pred, orden) && Relaxed(g, dist)
    requires t in g
    requires IsWalk(g, camino) && camino[|camino| - 1] == t
    requires pred[camino[0]] == None && PredChain(pred, camino)
    requires dist[t].Fin? ==>
               dist[camino[0]].Fin? && dist[t].n == dist[camino[0]].n + PathWeight(g, camino)
    ensures dist[t].Fin? ==> IsPath(g, camino, s, t) && PathWeight(g, camino) == dist[t].n
    ensures dist[t].Fin? ==> forall p :: IsPath(g, p, s, t) ==> dist[t].n <= PathWeight(g, p)
    ensures dist[t].Inf? ==> camino == [t] && forall p :: !IsPath(g, p, s, t)
    ensures s == t ==> dist[t] == Fin(0) && camino == [s]
  {
    forall p | IsPath(g, p, s, t)
      ensures dist[t].Fin? && dist[t].n <= PathWeight(g, p)
    {
      RelaxedBound(g, dist, p);
    }
    if pred[t].None? && |camino| > 1 {
      PredChainLast(pred, camino);
    }
    if |camino| == 1 {
      assert camino == [t];
    }
  }
}
