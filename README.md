# Grafo: a weighted graph store with Dijkstra's shortest path

This project models the class `Grafo` of `logica.py`. The class holds a
weighted graph as a dictionary of dictionaries (`grafo`: node -> neighbour ->
weight) together with a `dirigido` flag that is fixed at construction. It
has two mutators:

- `agregar_nodo` adds a node with no neighbours, unless the node is already present.
- `agregar_arista` adds both endpoints and writes the weight. An undirected
  graph also gets the reverse entry.

`dijkstra(inicio, fin)` is Dijkstra's algorithm over a binary min-heap of
`(distance, node)` pairs with lazy deletion. Stale pairs stay in the heap and
are skipped when popped. The path is then rebuilt by walking the
predecessors back from `fin`.

The model follows the source file by file:

- `graphs.dfy` (module `Graphs`) holds the vocabulary:
  - node labels as strings, and the adjacency map
  - `Dist`, which is `Inf` or `Fin(n)` and stands for `float('inf')` or a number
  - the comparisons of a number with a possibly infinite distance
  - three properties of a store: `Closed` (every neighbour is a node),
    `Symmetric` (an undirected store holds every pair in both directions with
    one weight) and `NonNegative`
- `store.dfy` (module `Store`) describes the adjacency map after each mutator,
  as a function of the map before the call. Its lemmas cover idempotence,
  overwriting, the frame, and preservation of `Closed` and `Symmetric`.
- `heap.dfy` (module `MinHeap`) is the heap `cola`, a sequence of pairs.
  - The order is Python's tuple order: distance first, then the node label
    compared code point by code point.
  - The lemmas prove that this order is total, reflexive and transitive.
  - `PopMin` removes and returns a least pair.
- `paths.dfy` (module `Paths`) defines walks, their weights, and the bound
  that a relaxed distance map puts on them.
- `search.dfy` (module `Search`) holds the loop over the neighbours inside
  `while cola`, and the walk back along the predecessors that follows it:
  - `RelajarVecinos` is the loop over the neighbours of the popped node.
  - `ReconstruirCamino` is the walk back along `predecesores`.
- `invariants.dfy` (module `Invariants`) holds the invariant of the outer
  loop `while cola`, the proof that each pop keeps it, and what it gives once
  the heap is empty.
- `logica.dfy` (module `Logica`) holds the class `Grafo`:
  - the field `grafo`, the constant `dirigido`, and the three methods
  - `Iteracion`, one pass of `while cola`
  - `Recorrer`, that loop together with the state it starts from

Proving the outer loop uses a ghost map `orden`. It records the order in
which nodes are settled, where settling a node means popping it with its
current distance.

- Every predecessor link points to a node settled earlier, so the walk back
  from `fin` terminates.
- Settled nodes are never lowered again, because the weights are
  non-negative.
- A distance is the weight of the path rebuilt from the predecessors. No
  path from `inicio` is lighter.

An unreachable `fin` keeps its distance `inf`, and its predecessor stays
`None` (logica.py:24-26). So the walk back stops at once, and `dijkstra`
returns `(inf, [fin])`, never a partial chain that starts at some other
root. `Grafo.Dijkstra` proves exactly this: an infinite distance comes with
the path `[fin]`, and no path from `inicio` to `fin` exists.

## Model

| member | source | states |
|---|---|---|
| Graphs.Lowers | logica.py:37 | The test `nueva_distancia < distancias[vecino]`, where an infinite distance is greater than every number |
| Graphs.Exceeds | logica.py:32 | The stale test `distancia_actual > distancias[nodo_actual]`, which is false against an infinite distance |
| Store.WithNode | logica.py:8-10 | The node set grows by exactly `n`; every existing neighbour map is unchanged; a new node gets an empty neighbour map |
| Store.WithNodeIdempotent | logica.py:8-10 | Adding a node twice equals adding it once; adding a present node changes nothing |
| Store.WithNodeClosed | logica.py:8-10 | Adding a node keeps every neighbour a node |
| Store.WithNodeSymmetric | logica.py:8-10 | Adding a node keeps an undirected store symmetric |
| Store.WithEdge | logica.py:12-17 | Both endpoints become nodes (and nothing else); `grafo[o][d] == w`, and also `grafo[d][o] == w` when undirected |
| Store.WithEdgeAdds | logica.py:12-17 | Adding an edge leaves every entry it does not write as it was and creates no entry other than the written ones |
| Store.AddedClosed | logica.py:12-15 | Any store obtained from a closed store by adding an edge is closed |
| Store.WithEdgeClosed | logica.py:12-15 | `agregar_arista` keeps every neighbour a node |
| Store.AddedSymmetric | logica.py:16-17 | Any store obtained from a symmetric store by adding an undirected edge is symmetric |
| Store.WithEdgeSymmetric | logica.py:16-17 | In an undirected store `agregar_arista` keeps `grafo[u][v] == grafo[v][u]` for every stored pair |
| Store.WithNodeNonNegative | logica.py:8-10 | Adding a node keeps every weight non-negative |
| Store.WithEdgeNonNegative | logica.py:12-17 | Adding an edge of non-negative weight keeps every weight non-negative, so a store built only through the mutators with such weights meets the weight requirement of `dijkstra` |
| Store.WithEdgeOverwrites | logica.py:15-17 | Re-adding the same pair overwrites the weight: adding `w1` then `w2` equals adding only `w2` |
| Store.Put | logica.py:15-17 | The assignment `self.grafo[u][v] = w` on an existing node `u`: the node set is unchanged, `u` gains exactly the neighbour `v` (if new) with weight `w`, its other neighbours keep their weights, and every other node keeps its neighbour map |
| Store.PutTwice | logica.py:15 | A second assignment to the same entry wins |
| MinHeap.StrLt | logica.py:30 | Python's `<` on node labels: code point by code point, a proper prefix first |
| MinHeap.EntryLe | logica.py:30 | Python's `<=` on `(distance, node)` pairs, the order `heappop` and `heappush` keep (lines 30 and 40) |
| MinHeap.StrLtIrreflexive | logica.py:30 | No label is less than itself in Python's string order |
| MinHeap.StrLtTrichotomy | logica.py:30 | Any two labels are ordered one way, equal, or ordered the other way |
| MinHeap.StrLtAsymmetric | logica.py:30 | The string order is asymmetric |
| MinHeap.StrLtTransitive | logica.py:30 | The string order is transitive |
| MinHeap.EntryLeTotal | logica.py:30 | Tuple order on `(distance, node)` pairs is total |
| MinHeap.EntryLeReflexive | logica.py:30 | Tuple order is reflexive |
| MinHeap.EntryLeTransitive | logica.py:30 | Tuple order is transitive |
| MinHeap.PopMin | logica.py:30 | `heappop` returns a pair of the heap that is no greater than any pair in it, and the rest is the heap minus exactly that one pair |
| Paths.RelaxedBound | logica.py:35-40 | When every edge is relaxed, the end of a walk from a finite node is finite and at most the start's distance plus the walk's weight |
| Paths.PrependWalk | logica.py:45 | Putting a node with an edge to the head of a walk in front gives a walk one edge heavier |
| Search.RelaxationLowers | logica.py:36-39 | Relaxing only ever lowers a distance, only for a neighbour of the popped node, which then gets that node as predecessor and the distance through the edge |
| Search.RelajarVecinos | logica.py:35-40 | Every neighbour whose distance the edge lowers gets the new distance and the popped node as predecessor; other nodes keep both; exactly one pair per lowered neighbour, with its new distance, is pushed after the old heap |
| Search.Step | logica.py:36-40 | Handling one neighbour keeps the loop state: handled neighbours updated, pending ones untouched, one push per lowered handled neighbour |
| Search.MapsStep | logica.py:37-39 | The distance and predecessor updates of one neighbour keep the partial description of both maps |
| Search.PushedStep | logica.py:40 | The push for one neighbour keeps the partial description of the pushed pairs, with no node pushed twice |
| Search.ReconstruirCamino | logica.py:42-46 | The rebuilt path is a walk of the graph that ends at `fin`, starts at a node with no predecessor, follows the predecessor links, and when `fin` is finite its distance is the start's plus the path's weight |
| Invariants.Initial | logica.py:24-27 | The initial distances, predecessors and heap satisfy the loop invariant |
| Invariants.Removed | logica.py:30 | Helper for `StalePop` and `PopPrelude`: the multiset equation of `PopMin` gives that the rest holds only pairs of the heap, and every pair other than the popped one |
| Invariants.StalePop | logica.py:30-33 | Skipping a popped pair whose distance exceeds its node's keeps the invariant |
| Invariants.SettledNotLowered | logica.py:32-37 | With non-negative weights, relaxing from the popped node lowers no settled node |
| Invariants.KeepQueueSound | logica.py:35-40 | After relaxation every queued pair still names a finite node whose distance is no larger |
| Invariants.KeepPending | logica.py:35-40 | After relaxation every unsettled finite node still has its distance queued |
| Invariants.KeepSettledFirst | logica.py:35-40 | After relaxation no queued pair is smaller than a settled node's distance |
| Invariants.KeepSettledRelaxed | logica.py:35-40 | After relaxation every edge leaving a settled node, now including the popped one, is relaxed |
| Invariants.KeepPredSound | logica.py:36-39 | After relaxation every predecessor link is an edge from a node settled earlier, and the distance is the predecessor's plus the weight |
| Invariants.KeepRooted | logica.py:25-39 | Relaxation (lines 36-39) keeps the state set up at lines 25-26: the source keeps distance 0 and no predecessor, it stays the only finite node without one, and no distance is negative |
| Invariants.NothingPushed | logica.py:35-40 | Relaxing from a node whose edges are already relaxed pushes nothing |
| Invariants.SettledPop | logica.py:30-40 | Popping a pair that is not stale, settling its node and relaxing its edges keeps the invariant; an already settled node pushes nothing |
| Invariants.PredChainLast | logica.py:44-46 | The last node of a predecessor chain has the node before it as predecessor |
| Invariants.AllSettled | logica.py:29 | Once the heap is empty every finite node is settled |
| Invariants.DrainedLinked | logica.py:29 | Once every finite node is settled, every predecessor link goes to a node settled earlier with a matching distance |
| Invariants.DrainedRelaxed | logica.py:29 | Once every finite node is settled, every edge of the graph is relaxed |
| Invariants.Drained | logica.py:29 | When the loop ends the source is rooted, the predecessor links fit the distances, and every edge is relaxed |
| Invariants.Outcome | logica.py:42-48 | The final distance of `t` is the weight of the rebuilt path from `s`, no walk from `s` to `t` is lighter, an infinite distance means no walk exists and the path is `[t]`, and `s == t` gives `(0, [s])` |
| Logica.Iteracion | logica.py:29-40 | One pass of the outer loop keeps the invariant and either settles a new node or shrinks the heap |
| Logica.Recorrer | logica.py:24-40 | From the initial state the outer loop terminates with the source rooted, every edge relaxed and the predecessor links fitting the distances |
| Logica.Grafo.constructor | logica.py:4-6 | A new graph has the given `dirigido` flag, directed when none is given (`dirigido=True`), and no nodes, and satisfies the store invariant |
| Logica.Grafo.AgregarNodo | logica.py:8-10 | The store becomes `WithNode` of the old store and keeps the store invariant |
| Logica.Grafo.AgregarArista | logica.py:12-17 | The store becomes `WithEdge` of the old store and keeps the store invariant (closed, symmetric when undirected) |
| Logica.Grafo.Dijkstra | logica.py:23-48 | The path is a walk ending at `fin`; a finite distance is the weight of that path, which starts at `inicio`, and no path from `inicio` to `fin` is lighter; an infinite distance means no such path exists and the path is `[fin]`; `inicio == fin` gives `(0, [inicio])` |

## Left out

- `mostrar_grafo` (logica.py:19-21) only prints, and main.py is the PyQt6 window; neither is modelled.
- Floating-point weights and `float('inf')`: weights are integers, and infinity is the `Inf` case of `Dist`.
- Logica.Grafo.Dijkstra: requires all weights to be non-negative. Storage
  accepts negative weights. With them the source pushes a node again each time
  its distance drops and relaxes its edges again, possibly many times. It
  still returns shortest distances when no negative cycle is reachable from
  `inicio`, and never returns when one is. The model describes neither case.
- Logica.Grafo.Dijkstra: requires `inicio` and `fin` to be nodes, for
  which the source raises `KeyError` otherwise (logica.py:35 and 46); the
  exception is not modelled.
- Logica.Grafo.Dijkstra: requires every neighbour to be a node (`Closed`).
  The source raises `KeyError` only when the search reaches a neighbour that
  is not a node (logica.py:37); graphs whose dangling neighbours are
  unreachable, on which the source returns normally, are not described.
  Graphs built through `AgregarArista` always satisfy the condition (`Valid`).
- MinHeap.PopMin: the binary-heap layout of `heapq` is not modelled. The heap
  is a sequence, and the pop returns a least pair, found by a linear scan.
  Among equal pairs, which copy comes out makes no difference to the result.
- Search.RelajarVecinos: dictionary iteration order is not modelled. Each
  step picks an arbitrary pending neighbour, and the contract holds for every
  order.
- Aliasing of the inner dictionaries (`self.grafo[u]` mutated in place) is modelled as whole-map replacement of the value; nothing else refers to those dictionaries.
- logica.py has no layout or weight-parsing code, so neither is modelled.
