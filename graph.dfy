/**
 * The graph object of the original program: an undirected, weighted
 * multigraph whose only state is its adjacency store.  The store is held
 * in two fields, the zones in the iteration order of the object's keys
 * and the map from each zone to its list of links; `Model()` reads them
 * back as a `Store` value, on which the mutations are specified.
 */
module Grafo {
  import opened Wrappers
  import opened Links
  import opened Stores
  import opened Distances
  import opened ShortestPaths

  class Graph {
    var keys: seq<Zone>
    var adj: map<Zone, seq<Link>>

    function Model(): Store
      reads this
    {
      Store(keys, adj)
    }

    /** Keys and map agree and every street is stored in both directions. */
    ghost predicate Valid()
      reads this
    {
      Model().Valid()
    }

    /** `new Grafo()`: no zones. */
    constructor ()
      ensures Valid()
      ensures keys == [] && adj == map[]
    {
      keys := [];
      adj := map[];
    }

    /** `agregarBarrio(x)` */
    method AddZone(x: Zone)
      requires Valid()
      modifies this
      ensures Valid()
      ensures Model() == old(Model()).WithZone(x)
    {
      WithZoneSpec(Model(), x);
      if x !in adj {
        keys := keys + [x];
        adj := adj[x := []];
      }
    }

    /** `agregarCalle(a, b, peso = 1)` */
    method AddStreet(a: Zone, b: Zone, w: nat := 1)
      requires Valid()
      modifies this
      ensures Valid()
      ensures Model() == old(Model()).WithStreet(a, b, w)
    {
      ghost var s := Model();
      WithStreetSpec(s, a, b, w);
      WithStreetSymmetric(s, a, b, w);
      AddZone(a);
      AddZone(b);
      adj := adj[a := adj[a] + [Link(b, w)]];
      adj := adj[b := adj[b] + [Link(a, w)]];
    }

    /** `eliminarBarrio(x)`: `delete`, then the filter loop over the remaining keys. */
    method RemoveZone(x: Zone)
      requires Valid()
      modifies this
      ensures Valid()
      ensures Model() == old(Model()).WithoutZone(x)
    {
      ghost var s := Model();
      OmitDistinct(keys, x);
      keys := Omit(keys, x);
      adj := adj - {x};
      var remaining := keys;
      ghost var done: set<Zone> := {};
      for i := 0 to |remaining|
        invariant keys == remaining
        invariant forall z :: z in adj <==> z in remaining
        invariant forall z :: z in adj ==> z in s.adj
        invariant forall z :: z in adj ==> adj[z] == if z in done then Without(s.adj[z], x) else s.adj[z]
        invariant done == set j | 0 <= j < i :: remaining[j]
      {
        var z := remaining[i];
        WithoutIdempotent(s.adj[z], x);
        adj := adj[z := Without(adj[z], x)];
        done := done + {z};
      }
      FilterLoopDone(s, x, keys, adj, done);
      WithoutZoneValid(s, x);
    }

    static lemma FilterLoopDone(s: Store, x: Zone, keys: seq<Zone>, adj: map<Zone, seq<Link>>, done: set<Zone>)
      requires s.Indexed()
      requires keys == Omit(s.keys, x)
      requires forall z :: z in adj <==> z in keys
      requires forall z :: z in adj ==> adj[z] == if z in done then Without(s.adj[z], x) else s.adj[z]
      requires done == set j | 0 <= j < |keys| :: keys[j]
      ensures Store(keys, adj) == s.WithoutZone(x)
    {
      var t := s.WithoutZone(x);
      forall z | z in adj
        ensures z in t.adj && adj[z] == t.adj[z]
      {
        var j :| 0 <= j < |keys| && keys[j] == z;
      }
      assert adj.Keys == t.adj.Keys;
    }

    static lemma WithoutZoneValid(s: Store, x: Zone)
      requires s.Valid()
      ensures s.WithoutZone(x).Valid()
    {
      WithoutZoneSpec(s, x);
      WithoutZoneSymmetric(s, x);
    }

    /** `cerrarCalle(a, b)`; the original throws when `a` or `b` is not a zone. */
    method CloseStreet(a: Zone, b: Zone)
      requires Valid()
      requires a in adj && b in adj
      modifies this
      ensures Valid()
      ensures Model() == old(Model()).WithoutStreet(a, b)
    {
      ghost var s := Model();
      WithoutStreetSpec(s, a, b);
      WithoutStreetSymmetric(s, a, b);
      adj := adj[a := Without(adj[a], b)];
      adj := adj[b := Without(adj[b], a)];
    }

    /** `existeConexion(a, b)`: false for an unknown `a`, otherwise whether some link of `a` leads to `b`. */
    function HasDirectLink(a: Zone, b: Zone): (r: bool)
      reads this
      ensures a !in adj ==> !r
      ensures r <==> Model().Linked(a, b)
    {
      if a !in adj then false else LeadsTo(adj[a], b)
    }
  
    /**
     * `barrioMasConectado()`: the first zone, in key order, with the most
     * stored links, and that number; `{barrio: null, conexiones: -1}` when
     * there is no zone.
     */
    method MostConnected() returns (zone: Option<Zone>, count: int)
      requires Valid()
      ensures keys == [] ==> zone == None && count == -1
      ensures keys != [] ==> zone.Some? && zone.value in adj && count == |adj[zone.value]|
      ensures forall z :: z in adj ==> |adj[z]| <= count
      ensures forall i, j :: 0 <= i < j < |keys| && zone == Some(keys[j]) ==> |adj[keys[i]]| < count
    {
      zone, count := None, -1;
      for k := 0 to |keys|
        invariant k == 0 ==> zone == None && count == -1
        invariant k > 0 ==> zone.Some? && zone.value in keys[..k] && zone.value in adj && count == |adj[zone.value]|
        invariant forall j :: 0 <= j < k ==> |adj[keys[j]]| <= count
        invariant forall i, j :: 0 <= i < j < k && zone == Some(keys[j]) ==> |adj[keys[i]]| < count
      {
        if |adj[keys[k]]| > count {
          count := |adj[keys[k]]|;
          zone := Some(keys[k]);
        }
      }
    }

    /**
     * `bfs(origen, destino)`: breadth-first search over the stored links in
     * list order.  The original throws when `origen` is not a zone and is
     * not `destino`.  A path is returned exactly when `destino` can be
     * reached, and it is a walk without repeated zones from `origen` to
     * `destino` with the fewest zones of any such walk.
     */
    method Bfs(origin: Zone, destination: Zone) returns (r: Option<seq<Zone>>)
      requires Valid()
      requires origin in adj || origin == destination
      ensures r.Some? ==> && Model().Walk(r.value)
                          && r.value[0] == origin
                          && r.value[|r.value| - 1] == destination
                          && Distinct(r.value)
      ensures r.Some? <==> Model().Reachable(origin, destination)
      ensures r.Some? ==> forall p :: Model().Walk(p) && p[0] == origin && p[|p| - 1] == destination ==> |r.value| <= |p|
    {
      ghost var s := Model();
      SymmetricClosed(s);
      var queue: seq<(Zone, seq<Zone>)> := [(origin, [origin])];
      var visited: set<Zone> := {origin};
      ghost var expanded: set<Zone> := {};
      SearchStart(s, origin, destination);
      while |queue| > 0
        invariant Searching(s, origin, destination, queue, visited, expanded)
        decreases |s.adj.Keys + {origin} - visited|, |queue|
      {
        var actual, path := queue[0].0, queue[0].1;
        if actual == destination {
          SearchFound(s, origin, destination, queue, visited, expanded);
          return Some(path);
        }
        ghost var queue0, visited0 := queue, visited;
        queue, visited := Enqueue(adj[actual], path, queue[1..], visited);
        SearchStep(s, origin, destination, queue0, visited0, expanded, queue, visited);
        expanded := expanded + {actual};
      }
      SearchExhausted(s, origin, destination, visited, expanded);
      r := None;
    }

    /**
     * `dijkstra(origen, destino)`: the settling loop, which repeatedly takes
     * the first unsettled zone of least tentative distance and relaxes its
     * links, then the walk back along the predecessors from `destino`.  The
     * result always ends at `destino`, is a walk without repeated zones, and
     * starts at `origen` exactly when `destino` can be reached, and then it
     * traces a cheapest route; otherwise it is exactly `[destino]`, since
     * no predecessor is ever recorded for a zone the origin cannot reach.
     * An `origen` that is not a zone is not an
     * error: it gets distance 0 but is never settled.
     */
    method Dijkstra(origin: Zone, destination: Zone) returns (path: seq<Zone>)
      requires Valid()
      ensures Model().Walk(path) && path[|path| - 1] == destination
      ensures Distinct(path)
      ensures path[0] == origin <==> Model().Reachable(origin, destination)
      ensures path[0] == origin ==> Model().Cheapest(path)
      ensures !Model().Reachable(origin, destination) ==> path == [destination]
    {
      ghost var s := Model();
      SymmetricClosed(s);
      var dist: map<Zone, Dist>, prev: map<Zone, Option<Zone>> := Unreached(keys);
      dist := dist[origin := Fin(0)];
      var unsettled := keys;
      ghost var rank: map<Zone, nat> := map[];
      ghost var round: nat := 0;
      SettlingStart(s, origin, dist, prev);
      while |unsettled| > 0
        invariant Settling(s, origin, unsettled, dist, prev, rank, round)
        decreases |unsettled|
      {
        var u := SelectNearest(unsettled, dist);
        ghost var unsettled0, dist0, prev0 := unsettled, dist, prev;
        OmitShorter(unsettled, u);
        unsettled := Omit(unsettled, u);
        dist, prev := Relax(u, adj[u], dist, prev);
        SettleStep(s, origin, unsettled0, dist0, prev0, rank, round, u, dist, prev);
        rank := rank[u := round];
        round := round + 1;
      }
      path := [];
      var cur: Option<Zone> := Some(destination);
      while cur.Some?
        invariant Chain(s, dist, prev, rank, destination, path, cur)
        decreases Height(rank, cur)
      {
        ChainStep(s, origin, dist, prev, rank, round, destination, path, cur);
        path := [cur.value] + path;
        cur := if cur.value in prev then prev[cur.value] else None;
      }
      ChainDone(s, origin, dist, prev, rank, round, destination, path);
      ChainShort(s, origin, dist, prev, rank, destination, path);
      if path[0] == origin {
        ChainCheapest(s, origin, dist, prev, rank, round, destination, path);
      }
    }
  }

  /** What the search loop keeps: the zones seen so far and the trails queued to them. */
  ghost predicate Searching(s: Store, origin: Zone, destination: Zone,
                            queue: seq<(Zone, seq<Zone>)>, visited: set<Zone>, expanded: set<Zone>)
  {
    && Frontier(s, origin, destination, queue, visited, expanded)
    && Trails(s, origin, queue, visited)
    && Layered(queue)
    && Fewest(s, origin, queue)
  }

  /** The trails in the queue never get shorter, and the last is at most one zone longer than the first. */
  ghost predicate Layered(queue: seq<(Zone, seq<Zone>)>)
  {
    forall i, j :: 0 <= i < j < |queue| ==> |queue[i].1| <= |queue[j].1| <= |queue[i].1| + 1
  }

  /** No walk from the origin to a queued zone has fewer zones than the trail queued with it. */
  ghost predicate Fewest(s: Store, origin: Zone, queue: seq<(Zone, seq<Zone>)>)
  {
    forall e, p :: e in queue && s.Walk(p) && p[0] == origin && p[|p| - 1] == e.0 ==> |e.1| <= |p|
  }

  /**
   * Every visited zone is expanded or waits in the queue; an expanded zone
   * is a zone all of whose neighbours are visited; the destination has not
   * been expanded.
   */
  ghost predicate Frontier(s: Store, origin: Zone, destination: Zone,
                           queue: seq<(Zone, seq<Zone>)>, visited: set<Zone>, expanded: set<Zone>)
  {
    && visited <= s.adj.Keys + {origin}
    && origin in visited
    && visited == expanded + Fronts(queue)
    && (forall u :: u in expanded ==> u in s.adj && Targets(s.adj[u]) <= visited)
    && destination !in expanded
  }

  /** Every queue entry holds a trail from the origin, made of visited zones. */
  ghost predicate Trails(s: Store, origin: Zone, queue: seq<(Zone, seq<Zone>)>, visited: set<Zone>)
  {
    && (forall e :: e in queue ==> (e.0 in s.adj || e.0 == origin) && Trail(s, origin, e.0, e.1))
    && (forall e, z :: e in queue && z in e.1 ==> z in visited)
  }

  /** The queue `[[origen, [origen]]]` with `visitados = {origen}` starts the search. */
  lemma SearchStart(s: Store, origin: Zone, destination: Zone)
    ensures Searching(s, origin, destination, [(origin, [origin])], {origin}, {})
  {
    assert Fronts([(origin, [origin])]) == {origin};
  }

  /** A dequeued entry for the destination holds a trail to it. */
  lemma SearchFound(s: Store, origin: Zone, destination: Zone,
                    queue: seq<(Zone, seq<Zone>)>, visited: set<Zone>, expanded: set<Zone>)
    requires Searching(s, origin, destination, queue, visited, expanded)
    requires |queue| > 0 && queue[0].0 == destination
    ensures Trail(s, origin, destination, queue[0].1)
    ensures s.Reachable(origin, destination)
    ensures forall p :: s.Walk(p) && p[0] == origin && p[|p| - 1] == destination ==> |queue[0].1| <= |p|
  {
    assert queue[0] in queue;
  }

  /** Once the queue is empty, every zone reachable from the origin has been expanded, and the destination was not. */
  lemma SearchExhausted(s: Store, origin: Zone, destination: Zone, visited: set<Zone>, expanded: set<Zone>)
    requires Searching(s, origin, destination, [], visited, expanded)
    ensures !s.Reachable(origin, destination)
  {
    assert Fronts([]) == {};
    ClosedSetHoldsWalks(s, visited, origin);
  }

  /** Dequeuing a zone other than the destination and enqueuing its unvisited neighbours keeps `Searching`. */
  lemma SearchStep(s: Store, origin: Zone, destination: Zone,
                   queue: seq<(Zone, seq<Zone>)>, visited: set<Zone>, expanded: set<Zone>,
                   queue': seq<(Zone, seq<Zone>)>, visited': set<Zone>)
    requires s.Closed()
    requires origin in s.adj || origin == destination
    requires Searching(s, origin, destination, queue, visited, expanded)
    requires |queue| > 0 && queue[0].0 != destination
    requires queue[0].0 in s.adj
    requires Enqueued(s.adj[queue[0].0], queue[0].1, queue[1..], visited, queue', visited')
    ensures Searching(s, origin, destination, queue', visited', expanded + {queue[0].0})
    ensures || |s.adj.Keys + {origin} - visited'| < |s.adj.Keys + {origin} - visited|
            || (visited' == visited && |queue'| < |queue|)
  {
    SearchProgress(s, origin, queue, visited, queue', visited');
    QueueShape(queue, queue');
    ClosedTargets(s, queue[0].0);
    FrontierStep(s, origin, destination, queue, visited, expanded, queue', visited');
    TrailsStep(s, origin, queue, visited, queue', visited');
    LayeredStep(s, queue, visited, queue', visited');
    FewestStep(s, origin, destination, queue, visited, expanded, queue', visited');
  }

  /** Each expansion visits a new zone or shortens the queue. */
  lemma SearchProgress(s: Store, origin: Zone, queue: seq<(Zone, seq<Zone>)>, visited: set<Zone>,
                       queue': seq<(Zone, seq<Zone>)>, visited': set<Zone>)
    requires visited <= s.adj.Keys + {origin} && visited <= visited' <= s.adj.Keys + {origin}
    requires |queue| > 0 && (visited' == visited ==> queue' == queue[1..])
    ensures || |s.adj.Keys + {origin} - visited'| < |s.adj.Keys + {origin} - visited|
            || (visited' == visited && |queue'| < |queue|)
  {
    if visited != visited' {
      StrictSubsetSmaller(s.adj.Keys + {origin} - visited', s.adj.Keys + {origin} - visited);
    }
  }

  /** The queue after an expansion is the rest of the old one followed by what was appended. */
  lemma QueueShape(queue: seq<(Zone, seq<Zone>)>, queue': seq<(Zone, seq<Zone>)>)
    requires |queue| > 0 && |queue| - 1 <= |queue'| && queue'[..|queue| - 1] == queue[1..]
    ensures queue' == queue[1..] + queue'[|queue| - 1..]
    ensures queue == [queue[0]] + queue[1..]
  {
  }

  /**
   * While the first queued trail has `n` zones, every walk from the origin
   * with at most `n` zones ends at a visited zone: the zone before its last
   * is reached by a shorter walk, so it is visited and, queued trails being
   * at least `n` long, already expanded.
   */
  lemma {:induction false} ShortWalksVisited(s: Store, origin: Zone,
                                             queue: seq<(Zone, seq<Zone>)>, visited: set<Zone>, expanded: set<Zone>,
                                             p: seq<Zone>)
    requires origin in visited && visited == expanded + Fronts(queue)
    requires forall u :: u in expanded ==> u in s.adj && Targets(s.adj[u]) <= visited
    requires Layered(queue) && Fewest(s, origin, queue) && |queue| > 0
    requires s.Walk(p) && p[0] == origin && |p| <= |queue[0].1|
    ensures p[|p| - 1] in visited
  {
    if |p| > 1 {
      var q := p[..|p| - 1];
      WalkPrefix(s, p, |p| - 1);
      ShortWalksVisited(s, origin, queue, visited, expanded, q);
      ShorterNotQueued(s, origin, queue, q);
      assert p[|p| - 2] in expanded;
      assert s.Linked(p[|p| - 2], p[|p| - 1]);
    }
  }

  /** A zone reached by a walk shorter than every queued trail is not in the queue. */
  lemma ShorterNotQueued(s: Store, origin: Zone, queue: seq<(Zone, seq<Zone>)>, q: seq<Zone>)
    requires Layered(queue) && Fewest(s, origin, queue) && |queue| > 0
    requires s.Walk(q) && q[0] == origin && |q| < |queue[0].1|
    ensures q[|q| - 1] !in Fronts(queue)
  {
    forall e | e in queue
      ensures e.0 != q[|q| - 1]
    {
      var k :| 0 <= k < |queue| && queue[k] == e;
      assert |queue[0].1| <= |e.1|;
    }
  }

  lemma LayeredStep(s: Store, queue: seq<(Zone, seq<Zone>)>, visited: set<Zone>,
                    queue': seq<(Zone, seq<Zone>)>, visited': set<Zone>)
    requires Layered(queue) && |queue| > 0 && queue[0].0 in s.adj
    requires Enqueued(s.adj[queue[0].0], queue[0].1, queue[1..], visited, queue', visited')
    requires queue' == queue[1..] + queue'[|queue| - 1..]
    ensures Layered(queue')
  {
    var rest, added := queue[1..], queue'[|queue| - 1..];
    forall i, j | 0 <= i < j < |queue'|
      ensures |queue'[i].1| <= |queue'[j].1| <= |queue'[i].1| + 1
    {
      if j < |rest| {
        assert queue'[i] == queue[i + 1] && queue'[j] == queue[j + 1];
      } else if i < |rest| {
        assert queue'[i] == queue[i + 1] && queue'[j] == added[j - |rest|];
      } else {
        assert queue'[i] == added[i - |rest|] && queue'[j] == added[j - |rest|];
      }
    }
  }

  lemma FewestStep(s: Store, origin: Zone, destination: Zone,
                   queue: seq<(Zone, seq<Zone>)>, visited: set<Zone>, expanded: set<Zone>,
                   queue': seq<(Zone, seq<Zone>)>, visited': set<Zone>)
    requires Frontier(s, origin, destination, queue, visited, expanded)
    requires Layered(queue) && Fewest(s, origin, queue) && |queue| > 0 && queue[0].0 in s.adj
    requires Enqueued(s.adj[queue[0].0], queue[0].1, queue[1..], visited, queue', visited')
    requires queue' == queue[1..] + queue'[|queue| - 1..]
    ensures Fewest(s, origin, queue')
  {
    var rest, added := queue[1..], queue'[|queue| - 1..];
    forall e, p | e in queue' && s.Walk(p) && p[0] == origin && p[|p| - 1] == e.0
      ensures |e.1| <= |p|
    {
      if e in added {
        if |p| <= |queue[0].1| {
          ShortWalksVisited(s, origin, queue, visited, expanded, p);
          assert false;
        }
      } else {
        assert e in rest;
      }
    }
  }

  lemma FrontierStep(s: Store, origin: Zone, destination: Zone,
                     queue: seq<(Zone, seq<Zone>)>, visited: set<Zone>, expanded: set<Zone>,
                     queue': seq<(Zone, seq<Zone>)>, visited': set<Zone>)
    requires Frontier(s, origin, destination, queue, visited, expanded)
    requires |queue| > 0 && queue[0].0 != destination && queue[0].0 in s.adj
    requires Targets(s.adj[queue[0].0]) <= s.adj.Keys
    requires queue == [queue[0]] + queue[1..]
    requires Enqueued(s.adj[queue[0].0], queue[0].1, queue[1..], visited, queue', visited')
    requires queue' == queue[1..] + queue'[|queue| - 1..]
    ensures Frontier(s, origin, destination, queue', visited', expanded + {queue[0].0})
  {
    FrontsAppend([queue[0]], queue[1..]);
    FrontsAppend(queue[1..], queue'[|queue| - 1..]);
    assert Fronts([queue[0]]) == {queue[0].0};
  }

  lemma TrailsStep(s: Store, origin: Zone,
                   queue: seq<(Zone, seq<Zone>)>, visited: set<Zone>,
                   queue': seq<(Zone, seq<Zone>)>, visited': set<Zone>)
    requires Trails(s, origin, queue, visited)
    requires |queue| > 0 && queue[0].0 in s.adj
    requires Targets(s.adj[queue[0].0]) <= s.adj.Keys
    requires Enqueued(s.adj[queue[0].0], queue[0].1, queue[1..], visited, queue', visited')
    requires queue' == queue[1..] + queue'[|queue| - 1..]
    ensures Trails(s, origin, queue', visited')
  {
    var actual, path := queue[0].0, queue[0].1;
    var rest, added := queue[1..], queue'[|queue| - 1..];
    assert queue[0] in queue;
    AddedTrails(s, origin, actual, path, visited, added);
    forall e | e in queue' ensures (e.0 in s.adj || e.0 == origin) && Trail(s, origin, e.0, e.1) {
      if e !in added { assert e in rest; }
    }
    forall e, z | e in queue' && z in e.1 ensures z in visited' {
      if e !in added { assert e in rest; }
    }
  }

  /** The entries appended for the unvisited neighbours of `actual` carry trails. */
  lemma AddedTrails(s: Store, origin: Zone, actual: Zone, path: seq<Zone>, visited: set<Zone>,
                    added: seq<(Zone, seq<Zone>)>)
    requires Trail(s, origin, actual, path) && actual in s.adj
    requires forall z :: z in path ==> z in visited
    requires Fronts(added) <= Targets(s.adj[actual]) <= s.adj.Keys
    requires forall e :: e in added ==> e.1 == path + [e.0] && e.0 !in visited
    ensures forall e :: e in added ==> e.0 in s.adj && Trail(s, origin, e.0, e.1)
    ensures forall e, z :: e in added && z in e.1 ==> z in visited || z in Fronts(added)
  {
    forall e | e in added ensures e.0 in s.adj && Trail(s, origin, e.0, e.1) {
      assert e.0 in Fronts(added);
      WalkExtend(s, path, e.0);
      var p := path + [e.0];
      assert forall i :: 0 <= i < |path| ==> p[i] == path[i] && p[i] in visited;
    }
  }

  lemma FrontsAppend(a: seq<(Zone, seq<Zone>)>, b: seq<(Zone, seq<Zone>)>)
    ensures Fronts(a + b) == Fronts(a) + Fronts(b)
  {
    assert forall e :: e in a + b <==> e in a || e in b;
  }

  /**
   * The loop `for (vecino of links) if (!visitados.has(vecino.nodo)) {...}`:
   * every zone a link leads to ends up visited, and the zones that were not
   * visited before are appended to the queue, each with `path` extended by it.
   */
  method Enqueue(links: seq<Link>, path: seq<Zone>, queue: seq<(Zone, seq<Zone>)>, visited: set<Zone>)
    returns (queue': seq<(Zone, seq<Zone>)>, visited': set<Zone>)
    ensures queue' == queue + NewEntries(links, path, visited)
    ensures Enqueued(links, path, queue, visited, queue', visited')
  {
    queue', visited' := queue, visited;
    for k := 0 to |links|
      invariant visited' == visited + Targets(links[..k])
      invariant queue' == queue + NewEntries(links[..k], path, visited)
    {
      NewEntriesStep(links, k, path, visited);
      var next := links[k].to;
      if next !in visited' {
        visited' := visited' + {next};
        queue' := queue' + [(next, path + [next])];
      }
    }
    assert links[..|links|] == links;
    EntriesEnqueued(links, path, queue, visited);
  }

  /** `NewEntries` over one more link: that link's target is added unless it is visited or already queued. */
  lemma NewEntriesStep(links: seq<Link>, k: nat, path: seq<Zone>, visited: set<Zone>)
    requires k < |links|
    ensures Targets(links[..k + 1]) == Targets(links[..k]) + {links[k].to}
    ensures NewEntries(links[..k + 1], path, visited)
         == NewEntries(links[..k], path, visited)
            + if links[k].to in visited + Targets(links[..k]) then [] else [(links[k].to, path + [links[k].to])]
  {
    assert links[..k + 1] == links[..k] + [links[k]];
    assert links[..k + 1][..k] == links[..k];
  }

  /** Appending `NewEntries` to the queue and its targets to the visited set is an `Enqueued` step. */
  lemma EntriesEnqueued(links: seq<Link>, path: seq<Zone>, queue: seq<(Zone, seq<Zone>)>, visited: set<Zone>)
    ensures Enqueued(links, path, queue, visited, queue + NewEntries(links, path, visited), visited + Targets(links))
  {
    var added := NewEntries(links, path, visited);
    assert (queue + added)[..|queue|] == queue;
    assert (queue + added)[|queue|..] == added;
    if added != [] {
      assert added[0].0 in Fronts(added);
    }
  }

  lemma StrictSubsetSmaller(a: set<Zone>, b: set<Zone>)
    requires a < b
    ensures |a| < |b|
  {
    assert b - a != {};
    var x :| x in b - a;
    assert b == a + (b - a);
    assert |b - a| >= |{x}|;
  }

  /**
   * What one expansion does: the zones the links lead to are now visited,
   * and the queue has grown by one entry for each zone not visited before,
   * its trail being `path` extended by that zone.
   */
  ghost predicate Enqueued(links: seq<Link>, path: seq<Zone>,
                           queue: seq<(Zone, seq<Zone>)>, visited: set<Zone>,
                           queue': seq<(Zone, seq<Zone>)>, visited': set<Zone>)
  {
    && visited' == visited + Targets(links)
    && |queue| <= |queue'| && queue'[..|queue|] == queue
    && Fronts(queue'[|queue|..]) == visited' - visited
    && (forall e :: e in queue'[|queue|..] ==> e.1 == path + [e.0] && e.0 !in visited)
    && (visited' == visited ==> queue' == queue)
  }

  /**
   * The entries the expansion loop appends, in the order of the links: one
   * for the first link to each zone not visited before, carrying `path`
   * extended by that zone.
   */
  function NewEntries(links: seq<Link>, path: seq<Zone>, visited: set<Zone>): (r: seq<(Zone, seq<Zone>)>)
    ensures forall e :: e in r ==> e.1 == path + [e.0] && e.0 !in visited
    ensures Fronts(r) == Targets(links) - visited
    ensures forall i, j :: 0 <= i < j < |r| ==> r[i].0 != r[j].0
  {
    if links == [] then []
    else
      var front, z := links[..|links| - 1], links[|links| - 1].to;
      assert links == front + [links[|links| - 1]];
      if z in visited || z in Targets(front) then NewEntries(front, path, visited)
      else
        var r := NewEntries(front, path, visited) + [(z, path + [z])];
        FrontsAppend(NewEntries(front, path, visited), [(z, path + [z])]);
        assert Fronts([(z, path + [z])]) == {z};
        r
  }

  /** The zones at the front of the queue entries. */
  function Fronts(queue: seq<(Zone, seq<Zone>)>): set<Zone>
  {
    set e | e in queue :: e.0
  }

  /** A queue entry `[z, camino]`: `camino` is a walk without repeated zones from `origin` to `z`. */
  ghost predicate Trail(s: Store, origin: Zone, z: Zone, path: seq<Zone>)
  {
    s.Walk(path) && path[0] == origin && path[|path| - 1] == z && Distinct(path)
  }
}
