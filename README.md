# Grafo: a verified model of the neighbourhood street graph

The program keeps one object, `Grafo`, holding a city as an undirected
weighted multigraph. Its only state is `ady`, a map from each zone
("barrio") to the list of its adjacency records `{nodo, peso}`. Every
street is stored twice, once in each direction. On top of that store the
object offers:

- four mutations: `agregarBarrio`, `agregarCalle` (weight 1 by default),
  `eliminarBarrio` and `cerrarCalle`;
- one direct-link query: `existeConexion`;
- two path searches: `bfs`, which counts hops, and `dijkstra`, which
  uses weights;
- one degree query: `barrioMasConectado`.

This project models that object in Dafny.

- **The store.** The class `Grafo.Graph` has two fields: `keys`, the
  zones in the object's key order, and `adj`, the map from zone to link
  list. `Model()` reads the fields back as a `Stores.Store` value, and
  every mutation is specified on that value.
- **The store functions.** Each mutation has a function on the value:
  `WithZone`, `WithStreet`, `WithoutZone` and `WithoutStreet`. The lemmas
  beside each function state what it does to the key order and to every
  list. Its counting lemma gives how many copies of each link every list
  holds afterwards.
- **The invariant.** Every street is stored in both directions,
  counted per link copy. `Symmetric` states it, and every mutation keeps
  it, so `Valid()` holds before and after each of them.
- **The methods.** The class methods run the original loops: the filter
  loop of `eliminarBarrio`, the queue of `bfs`, the settling and
  reconstruction loops of `dijkstra`, and the scan of
  `barrioMasConectado`. Each is proved against those functions and
  predicates.
- **The proofs.** The invariants of the search loops are named ghost
  predicates. One step lemma per loop body shows the invariant is kept:
  `Grafo.SearchStep` for `bfs`, and `ShortestPaths.SettleStep` and
  `ShortestPaths.ChainStep` for `dijkstra`.
- **Optimality.** `bfs` returns a path with the fewest zones: its queue
  holds trails whose lengths never decrease and span at most one, and no
  walk to a queued zone is shorter than its trail. `dijkstra` returns,
  when the destination is reachable, the trace of a cheapest route, and
  otherwise the destination alone. A
  route (`Stores.Store.Route`) is a sequence of stored links, because two
  zones may be joined by parallel streets of different weights; its cost
  is the sum of their weights. `Stores.Store.Cheapest` says that some
  route along the path costs no more than any route from its first zone
  to its last.

Module layout:

- `links.dfy`: zones, link records, the list filter and the list search.
- `store.dfy`: the store value, its four mutations, symmetry, walks and
  reachability.
- `distances.dfy`: tentative distances (a natural number or `Infinity`),
  the selection of the nearest zone, and relaxation.
- `shortest.dfy`: the loop invariants of `dijkstra` and their step lemmas.
- `graph.dfy`: the class and the invariants of `bfs`.
- `wrappers.dfy`: `Option`.

Where the source throws a `TypeError`, that input becomes a precondition:

- `cerrarCalle` with a zone that does not exist;
- `bfs` from an unknown origin that is not also the destination.

`null` results are `None`. `dijkstra` with an unknown origin does not
throw: the origin gets distance 0 but is never settled. The model follows
the code here, so `Dijkstra` has no precondition on its origin.

## Model

| member | source | states |
|---|---|---|
| Links.LeadsTo | script.js:34 | the `some` scan is true exactly when some link of the list leads to `b` |
| Links.Without | script.js:27 | the filter keeps only links of the input, never one leading to `z`, and never grows the list |
| Links.WithoutCount | script.js:27 | every link not leading to `z` keeps all its copies; links to `z` keep none |
| Links.WithoutAppend | script.js:27 | the filter distributes over concatenation, so it keeps the relative order of what it keeps |
| Links.WithoutIdempotent | script.js:115-116 | filtering twice by the same zone is filtering once, which is what `cerrarCalle(a, a)` does to `a`'s list |
| Stores.Omit | script.js:24-25 | the key order after `delete` holds exactly the old keys other than the deleted one |
| Stores.OmitDistinct | script.js:24-25 | deleting a key keeps the key order free of repetitions |
| Stores.OmitShorter | script.js:78 | removing a zone that is present shortens the sequence, so the settling loop of `dijkstra` ends |
| Stores.Store.WithZone | script.js:8-12 | adding a zone makes it a key and adds no other key |
| Stores.WithZoneIdempotent | script.js:8-12 | adding a zone twice is adding it once; adding an existing zone changes nothing |
| Stores.WithZoneSpec | script.js:8-12 | a new zone is appended to the key order with an empty list; no list changes; symmetry is kept |
| Stores.Store.WithStreet | script.js:15-20 | after `agregarCalle(a, b, w)` the keys are the old keys plus `a` and `b` |
| Stores.Store.Push | script.js:18-19 | appending to one zone's list changes neither the key order nor the set of zones |
| Stores.PushCount | script.js:18-19 | `push` adds one copy of the link to that zone's list and leaves every other count unchanged |
| Stores.WithStreetCount | script.js:15-20 | exactly one more copy of `{b, w}` under `a` and one more of `{a, w}` under `b`; every other count is unchanged |
| Stores.WithStreetSymmetric | script.js:18-19 | adding a street keeps every street stored in both directions |
| Stores.WithStreetSpec | script.js:15-20 | the missing zones are appended in the order `a`, `b`; `a`'s list gains `{b, w}` and `b`'s gains `{a, w}` at the end (one list gains both when `a == b`); other lists are unchanged |
| Stores.Store.WithoutZone | script.js:23-29 | `x` is no longer a zone, and every other zone stays one |
| Stores.WithoutZoneCount | script.js:23-29 | after removing `x` no link is stored under `x` or leads to it; every other link keeps all its copies |
| Stores.WithoutZoneSymmetric | script.js:23-29 | removing a zone keeps symmetry |
| Stores.WithoutZoneSpec | script.js:23-29 | `x` leaves the keys, which keep their order; every remaining list is the old list filtered of the links to `x` |
| Stores.Store.WithoutStreet | script.js:114-117 | closing a street keeps the set of zones |
| Stores.WithoutStreetCount | script.js:114-117 | every `a -> b` and `b -> a` copy is gone, whatever its weight; every other count is unchanged |
| Stores.WithoutStreetSymmetric | script.js:114-117 | closing a street keeps symmetry |
| Stores.WithoutStreetSpec | script.js:114-117 | the keys are unchanged; `a`'s list is filtered of `b`, `b`'s list of `a`; other lists are unchanged |
| Stores.SymmetricClosed | script.js:18-19 | under symmetry every link leads to an existing zone |
| Stores.LinkedSymmetric | script.js:18-19 | under symmetry a direct link from `a` to `b` exists exactly when one from `b` to `a` does |
| Stores.ClosedSetHoldsWalks | script.js:46-51 | a set holding the start of a walk and closed under links holds the whole walk |
| Grafo.Graph.constructor | script.js:3-5 | a new graph has no zones and is valid |
| Grafo.Graph.AddZone | script.js:8-12 | the new state is `WithZone(x)` of the old one, and validity is kept |
| Grafo.Graph.AddStreet | script.js:15-20 | the new state is `WithStreet(a, b, w)` of the old one, with `w` defaulting to 1, and validity is kept |
| Grafo.Graph.RemoveZone | script.js:23-29 | the delete and the filter loop over the remaining keys give `WithoutZone(x)` of the old state, and validity is kept |
| Grafo.Graph.CloseStreet | script.js:114-117 | the new state is `WithoutStreet(a, b)` of the old one, and validity is kept |
| Grafo.Graph.HasDirectLink | script.js:32-35 | false for an unknown `a`; otherwise true exactly when `a` has a stored link to `b` |
| Grafo.Graph.MostConnected | script.js:101-111 | `(None, -1)` with no zones; otherwise a zone whose list length is the count, which no list exceeds, and every zone before it in key order has a strictly shorter list (the first maximum) |
| Grafo.Enqueue | script.js:46-51 | the new queue is the old one followed by `NewEntries` of the links, and the neighbours become visited; hence exactly the newly visited zones are appended, each once, each with the current path extended by it, and nothing is appended when no zone is newly visited |
| Grafo.NewEntries | script.js:46-50 | the entries appended for a list of links, in link order: their zones are exactly the targets not yet visited, no zone appears twice, and each is paired with the current path extended by it |
| Grafo.NewEntriesStep | script.js:46-50 | one more link appends its target, with the extended path, exactly when that target is neither visited nor the target of an earlier link |
| Grafo.EntriesEnqueued | script.js:46-51 | appending `NewEntries` and marking the targets visited keeps the old queue as a prefix, appends exactly the newly visited zones with their extended paths, and appends nothing when no zone is newly visited |
| Grafo.SearchStep | script.js:41-51 | dequeuing a zone other than the destination and enqueuing its unvisited neighbours keeps the search invariant, and either visits a new zone or shortens the queue, so the search ends |
| Grafo.SearchFound | script.js:44 | a dequeued entry for the destination holds a walk without repeated zones from the origin to it, and no walk from the origin to the destination has fewer zones |
| Grafo.ShortWalksVisited | script.js:42-51 | while the first queued trail has `n` zones, every walk from the origin with at most `n` zones ends at a visited zone |
| Grafo.ShorterNotQueued | script.js:42-51 | a zone reached by a walk shorter than the first queued trail is not in the queue |
| Grafo.LayeredStep | script.js:42-51 | after an expansion the queued trails still never get shorter along the queue, and the last is at most one zone longer than the first |
| Grafo.FewestStep | script.js:46-49 | a zone first visited from the dequeued entry is queued with a trail that no walk from the origin to it undercuts |
| Grafo.SearchExhausted | script.js:42-53 | when the queue runs empty the destination is unreachable from the origin |
| Grafo.Graph.Bfs | script.js:37-54 | a path is returned exactly when the destination is reachable; it is a walk from the origin to the destination with no repeated zone, and no such walk has fewer zones |
| Distances.Plus | script.js:82 | `dist[u] + peso` never makes a distance smaller and is finite exactly when `dist[u]` is |
| Distances.Unreached | script.js:63-66 | every zone starts at `Infinity` with a `null` predecessor, and no other entry exists |
| Distances.SelectNearest | script.js:71-78 | the chosen zone is unsettled and of least distance, and every zone before it in iteration order is strictly farther, so ties go to the first |
| Distances.LoweredThrough | script.js:81-86 | a zone whose distance the relaxation lowered is a target of `u`'s links, has `u` as predecessor, and `u`'s distance is finite and no larger than the new one |
| Distances.Relax | script.js:81-87 | no distance grows and `u`'s stays; a lowered distance comes from `u` along one of its links, with `u` as the new predecessor; other predecessors stay; afterwards no link of `u` offers a shorter distance |
| ShortestPaths.SettlingStart | script.js:63-67 | the initial labels with every zone unsettled satisfy the settling invariant |
| ShortestPaths.SettleStep | script.js:70-88 | settling the nearest zone and relaxing its links keeps the invariant: predecessors are linked, settled earlier and finite, and realise the distance along one of their links; settled zones are no farther than unsettled ones; no link of a settled zone offers a shorter distance; a settled distance is at most the cost of every route to that zone |
| ShortestPaths.FirstUnsettled | script.js:70-87 | a route from the origin to an unsettled zone passes through an unsettled zone whose distance is at most the route's cost |
| ShortestPaths.StepLower | script.js:70-87 | after settling the nearest zone, no settled zone's distance exceeds the cost of any route from the origin to it |
| ShortestPaths.ChainStep | script.js:93-96 | each step back prepends a linked zone settled earlier, so the walk back ends |
| ShortestPaths.ChainDone | script.js:90-97 | the reconstructed sequence is a walk without repeated zones ending at the destination, and it starts at the origin exactly when the destination is reachable |
| ShortestPaths.ChainShort | script.js:90-96 | a finished walk back is never empty, and when it does not start at the origin it is the destination alone |
| ShortestPaths.ChainRoute | script.js:90-96 | following the predecessors, the reconstructed path traces a route whose cost, added to the distance of its first zone, is the distance of its last |
| ShortestPaths.ChainCheapest | script.js:90-97 | a reconstructed path that starts at the origin traces a route no route from the origin to the destination undercuts in total weight |
| ShortestPaths.SettledCheapest | script.js:70-87 | a settled zone at distance `c` has no route from the origin that costs less than `c` |
| Stores.RouteExtend | script.js:82 | a route extended by a link stored under its last stop is a route, ending at that link's zone, and costing that link's weight more |
| Stores.WalkPrefix | script.js:48 | a non-empty prefix of a walk is a walk from the same zone |
| Grafo.Graph.Dijkstra | script.js:56-98 | the result always ends at the destination and is a walk with no repeated zone; it starts at the origin exactly when the destination is reachable, and then it traces a route of least total weight among all routes from the origin to the destination; when the destination is unreachable the result is the destination alone |

## Left out

- The demonstration driver and its console output (script.js:120-137) are not part of this model.
- Distances and weights are natural numbers, and `Infinity` is a separate value that absorbs addition. Fractional, negative, `NaN` or non-numeric weights are not modelled. Neither is floating-point rounding of large sums.
- Zones are non-empty strings. The empty zone name, which the reconstruction loop would treat as false, is excluded. So are zone names that clash with inherited object properties, such as `constructor`.
- The key order is insertion order. The ordering JavaScript applies to integer-like keys, which iterate first in numeric order, is not modelled.
- The inputs on which the source throws a `TypeError` are preconditions. These are `cerrarCalle` with an unknown zone and `bfs` from an unknown origin that is not the destination. The partial mutation that `cerrarCalle` makes before throwing is not modelled.
