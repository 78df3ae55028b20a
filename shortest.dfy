/**
 * The invariants of the two loops of `dijkstra`: the settling loop, which
 * removes the nearest unsettled zone and relaxes its links on every round,
 * and the reconstruction loop, which follows the predecessors back from
 * the destination.  A ghost `rank` records the round on which each zone was
 * settled; predecessors always have a smaller rank, so the walk back ends.
 * The distance of a settled zone is no more than the cost of any route to
 * it, and the predecessor chain realises it, so the path found is cheapest.
 */
module ShortestPaths {
  import opened Wrappers
  import opened Links
  import opened Stores
  import opened Distances

  /**
   * `p`, the recorded predecessor of `q`, was settled before `q`, has a
   * finite distance and a link to `q` whose weight added to `p`'s distance
   * is `q`'s distance.
   */
  ghost predicate Edge(s: Store, dist: map<Zone, Dist>, rank: map<Zone, nat>, p: Zone, q: Zone)
  {
    && p in rank && s.Linked(p, q) && p in dist && dist[p].Fin? && (q in rank ==> rank[p] < rank[q])
    && q in dist && exists l :: l in s.adj[p] && l.to == q && dist[q] == Plus(dist[p], l.weight)
  }

  /** The zones settled so far are those of `rank`, numbered below `round`; the others wait in `unsettled`. */
  ghost predicate Queue(s: Store, unsettled: seq<Zone>, rank: map<Zone, nat>, round: nat)
  {
    && Distinct(unsettled)
    && (forall z :: z in unsettled ==> z in s.adj)
    && (forall z :: z in rank <==> z in s.adj && z !in unsettled)
    && (forall z :: z in rank ==> rank[z] < round)
  }

  /** Every zone has a distance and a predecessor entry, and the origin is at distance 0. */
  ghost predicate Labels(s: Store, origin: Zone, dist: map<Zone, Dist>, prev: map<Zone, Option<Zone>>)
  {
    && (forall z :: z in s.adj ==> z in dist)
    && (forall z :: z in prev <==> z in s.adj)
    && origin in dist && dist[origin] == Fin(0)
  }

  /** Every recorded predecessor is an `Edge`. */
  ghost predicate Tree(s: Store, dist: map<Zone, Dist>, prev: map<Zone, Option<Zone>>, rank: map<Zone, nat>)
  {
    forall q :: q in prev && prev[q].Some? ==> Edge(s, dist, rank, prev[q].value, q)
  }

  /** Every zone with a finite distance, except the origin, has a predecessor. */
  ghost predicate Labelled(origin: Zone, dist: map<Zone, Dist>, prev: map<Zone, Option<Zone>>)
  {
    forall q :: q in prev && q in dist && dist[q].Fin? && q != origin ==> prev[q].Some?
  }

  /** No settled zone is farther than an unsettled one. */
  ghost predicate Ordered(dist: map<Zone, Dist>, rank: map<Zone, nat>, unsettled: seq<Zone>)
  {
    forall v, w :: v in rank && w in unsettled && v in dist && w in dist ==> AtMost(dist[v], dist[w])
  }

  /** No link of a settled zone offers a shorter distance than the one its target has. */
  ghost predicate Stable(s: Store, dist: map<Zone, Dist>, rank: map<Zone, nat>)
  {
    forall x, l :: x in rank && x in s.adj && l in s.adj[x] && x in dist && l.to in dist
      ==> AtMost(dist[l.to], Plus(dist[x], l.weight))
  }

  /** The distance of a settled zone is no more than the cost of any route from the origin to it. */
  ghost predicate Lower(s: Store, origin: Zone, dist: map<Zone, Dist>, rank: map<Zone, nat>)
  {
    forall r {:trigger s.Route(origin, r)} :: s.Route(origin, r) && Stop(origin, r, |r|) in rank && Stop(origin, r, |r|) in dist
      ==> AtMost(dist[Stop(origin, r, |r|)], Fin(Cost(r)))
  }

  /** The state of the settling loop after `round` rounds. */
  ghost predicate Settling(s: Store, origin: Zone, unsettled: seq<Zone>, dist: map<Zone, Dist>,
                           prev: map<Zone, Option<Zone>>, rank: map<Zone, nat>, round: nat)
  {
    && Queue(s, unsettled, rank, round)
    && Labels(s, origin, dist, prev)
    && Tree(s, dist, prev, rank)
    && Labelled(origin, dist, prev)
    && Ordered(dist, rank, unsettled)
    && Stable(s, dist, rank)
    && Lower(s, origin, dist, rank)
  }

  lemma SettlingStart(s: Store, origin: Zone, dist: map<Zone, Dist>, prev: map<Zone, Option<Zone>>)
    requires s.Indexed()
    requires forall z :: z in dist <==> z in s.keys || z == origin
    requires forall z :: z in prev <==> z in s.keys
    requires forall z :: z in dist && z != origin ==> dist[z] == Inf
    requires origin in dist && dist[origin] == Fin(0)
    requires forall z :: z in prev ==> prev[z] == None
    ensures Settling(s, origin, s.keys, dist, prev, map[], 0)
  {
  }

  // ----- one round of the settling loop -----

  /** A settled zone keeps its distance when the nearest unsettled zone `u` is relaxed. */
  lemma SettledKept(s: Store, unsettled: seq<Zone>, dist: map<Zone, Dist>, prev: map<Zone, Option<Zone>>,
                    rank: map<Zone, nat>, u: Zone, dist': map<Zone, Dist>, prev': map<Zone, Option<Zone>>, v: Zone)
    requires u in s.adj && u in dist && v in dist
    requires v == u || (v in rank && u in unsettled && Ordered(dist, rank, unsettled))
    requires Relaxed(u, s.adj[u], dist, prev, dist', prev')
    ensures dist'[v] == dist[v]
  {
    if v != u && Below(dist'[v], dist[v]) {
      LoweredThrough(u, s.adj[u], dist, prev, dist', prev', v);
      assert false;
    }
    AtMostAntisymmetric(dist'[v], dist[v]);
  }

  /** After relaxing `u`, no zone is nearer than `u` was, provided none was before. */
  lemma NoneNearer(s: Store, dist: map<Zone, Dist>, prev: map<Zone, Option<Zone>>,
                   u: Zone, dist': map<Zone, Dist>, prev': map<Zone, Option<Zone>>, w: Zone)
    requires u in s.adj && u in dist && w in dist && AtMost(dist[u], dist[w])
    requires Relaxed(u, s.adj[u], dist, prev, dist', prev')
    ensures AtMost(dist[u], dist'[w])
  {
    if Below(dist'[w], dist[w]) {
      LoweredThrough(u, s.adj[u], dist, prev, dist', prev', w);
    } else {
      AtMostAntisymmetric(dist'[w], dist[w]);
    }
  }

  lemma StepQueue(s: Store, unsettled: seq<Zone>, rank: map<Zone, nat>, round: nat, u: Zone)
    requires Queue(s, unsettled, rank, round)
    requires u in unsettled
    ensures Queue(s, Omit(unsettled, u), rank[u := round], round + 1)
  {
    OmitDistinct(unsettled, u);
  }

  lemma StepLabels(s: Store, origin: Zone, dist: map<Zone, Dist>, prev: map<Zone, Option<Zone>>,
                   u: Zone, dist': map<Zone, Dist>, prev': map<Zone, Option<Zone>>)
    requires s.Closed() && u in s.adj
    requires Labels(s, origin, dist, prev)
    requires Relaxed(u, s.adj[u], dist, prev, dist', prev')
    ensures Labels(s, origin, dist', prev')
  {
    AtMostZero(dist'[origin]);
  }

  lemma StepTree(s: Store, origin: Zone, unsettled: seq<Zone>, dist: map<Zone, Dist>,
                 prev: map<Zone, Option<Zone>>, rank: map<Zone, nat>, round: nat,
                 u: Zone, dist': map<Zone, Dist>, prev': map<Zone, Option<Zone>>)
    requires Queue(s, unsettled, rank, round) && Labels(s, origin, dist, prev)
    requires Ordered(dist, rank, unsettled) && Tree(s, dist, prev, rank)
    requires u in unsettled
    requires Relaxed(u, s.adj[u], dist, prev, dist', prev')
    ensures Tree(s, dist', prev', rank[u := round])
  {
    var rank' := rank[u := round];
    SettledKept(s, unsettled, dist, prev, rank, u, dist', prev', u);
    forall q | q in prev' && prev'[q].Some?
      ensures Edge(s, dist', rank', prev'[q].value, q)
    {
      if q in dist && Below(dist'[q], dist[q]) {
        LoweredThrough(u, s.adj[u], dist, prev, dist', prev', q);
        if q in rank {
          SettledKept(s, unsettled, dist, prev, rank, u, dist', prev', q);
        }
        var l :| l in s.adj[u] && l.to == q && dist'[q] == Plus(dist[u], l.weight);
      } else {
        var p := prev[q].value;
        assert Edge(s, dist, rank, p, q);
        SettledKept(s, unsettled, dist, prev, rank, u, dist', prev', p);
        AtMostAntisymmetric(dist'[q], dist[q]);
        var l :| l in s.adj[p] && l.to == q && dist[q] == Plus(dist[p], l.weight);
      }
    }
  }

  lemma StepLabelled(s: Store, origin: Zone, unsettled: seq<Zone>, dist: map<Zone, Dist>,
                     prev: map<Zone, Option<Zone>>, rank: map<Zone, nat>, round: nat,
                     u: Zone, dist': map<Zone, Dist>, prev': map<Zone, Option<Zone>>)
    requires Queue(s, unsettled, rank, round) && Labels(s, origin, dist, prev) && Labelled(origin, dist, prev)
    requires u in unsettled
    requires Relaxed(u, s.adj[u], dist, prev, dist', prev')
    ensures Labelled(origin, dist', prev')
  {
    forall q | q in prev' && q in dist' && dist'[q].Fin? && q != origin
      ensures prev'[q].Some?
    {
      if !Below(dist'[q], dist[q]) {
        AtMostAntisymmetric(dist'[q], dist[q]);
      }
    }
  }

  lemma StepOrdered(s: Store, origin: Zone, unsettled: seq<Zone>, dist: map<Zone, Dist>,
                    prev: map<Zone, Option<Zone>>, rank: map<Zone, nat>, round: nat,
                    u: Zone, dist': map<Zone, Dist>, prev': map<Zone, Option<Zone>>)
    requires Queue(s, unsettled, rank, round) && Labels(s, origin, dist, prev) && Ordered(dist, rank, unsettled)
    requires u in unsettled
    requires forall z :: z in unsettled ==> AtMost(dist[u], dist[z])
    requires Relaxed(u, s.adj[u], dist, prev, dist', prev')
    ensures Ordered(dist', rank[u := round], Omit(unsettled, u))
  {
    var unsettled', rank' := Omit(unsettled, u), rank[u := round];
    forall v, w | v in rank' && w in unsettled' && v in dist' && w in dist'
      ensures AtMost(dist'[v], dist'[w])
    {
      SettledKept(s, unsettled, dist, prev, rank, u, dist', prev', v);
      NoneNearer(s, dist, prev, u, dist', prev', w);
      if v != u {
        AtMostTransitive(dist[v], dist[u], dist'[w]);
      }
    }
  }

  lemma StepStable(s: Store, origin: Zone, unsettled: seq<Zone>, dist: map<Zone, Dist>,
                   prev: map<Zone, Option<Zone>>, rank: map<Zone, nat>, round: nat,
                   u: Zone, dist': map<Zone, Dist>, prev': map<Zone, Option<Zone>>)
    requires Queue(s, unsettled, rank, round) && Labels(s, origin, dist, prev)
    requires Ordered(dist, rank, unsettled) && Stable(s, dist, rank)
    requires u in unsettled
    requires Relaxed(u, s.adj[u], dist, prev, dist', prev')
    ensures Stable(s, dist', rank[u := round])
  {
    var rank' := rank[u := round];
    forall x, l | x in rank' && x in s.adj && l in s.adj[x] && x in dist' && l.to in dist'
      ensures AtMost(dist'[l.to], Plus(dist'[x], l.weight))
    {
      SettledKept(s, unsettled, dist, prev, rank, u, dist', prev', x);
      if x != u {
        AtMostTransitive(dist'[l.to], dist[l.to], Plus(dist[x], l.weight));
      }
    }
  }

  /** `Plus` is monotone in the distance. */
  lemma PlusMonotone(a: Dist, b: Dist, w: nat)
    requires AtMost(a, b)
    ensures AtMost(Plus(a, w), Plus(b, w))
  {
  }

  /**
   * A route whose last link leaves a settled zone costs no less than the
   * distance of the zone it ends at: that link has been relaxed.
   */
  lemma LastFromSettled(s: Store, origin: Zone, dist: map<Zone, Dist>, rank: map<Zone, nat>, r: seq<Link>)
    requires Stable(s, dist, rank) && Lower(s, origin, dist, rank)
    requires s.Route(origin, r) && r != []
    requires Stop(origin, r, |r| - 1) in rank && Stop(origin, r, |r| - 1) in dist && Stop(origin, r, |r|) in dist
    ensures AtMost(dist[Stop(origin, r, |r|)], Fin(Cost(r)))
  {
    var q, l := r[..|r| - 1], r[|r| - 1];
    RouteLast(s, origin, r);
    CostLast(r);
    var x := Stop(origin, r, |r| - 1);
    assert AtMost(dist[x], Fin(Cost(q)));
    PlusMonotone(dist[x], Fin(Cost(q)), l.weight);
    AtMostTransitive(dist[l.to], Plus(dist[x], l.weight), Fin(Cost(r)));
  }

  /**
   * A route from the origin to an unsettled zone passes through an
   * unsettled zone whose distance is no more than the route's cost: the
   * first unsettled zone on it, reached from a settled zone by a link that
   * has been relaxed.
   */
  lemma {:induction false} FirstUnsettled(s: Store, origin: Zone, unsettled: seq<Zone>, dist: map<Zone, Dist>,
                                          prev: map<Zone, Option<Zone>>, rank: map<Zone, nat>, round: nat,
                                          r: seq<Link>)
    requires forall z :: z in unsettled ==> z in s.adj
    requires forall z :: z in s.adj ==> z in dist
    requires forall z :: z in s.adj && z !in rank ==> z in unsettled
    requires origin in dist && dist[origin] == Fin(0)
    requires Stable(s, dist, rank) && Lower(s, origin, dist, rank)
    requires s.Route(origin, r) && Stop(origin, r, |r|) in unsettled
    ensures exists y :: y in unsettled && AtMost(dist[y], Fin(Cost(r)))
  {
    var e := Stop(origin, r, |r|);
    if r == [] {
      assert AtMost(dist[e], Fin(Cost(r)));
    } else {
      var q := r[..|r| - 1];
      RouteLast(s, origin, r);
      var x := Stop(origin, r, |r| - 1);
      if x in rank {
        LastFromSettled(s, origin, dist, rank, r);
        assert e in unsettled && AtMost(dist[e], Fin(Cost(r)));
      } else {
        assert |q| == |r| - 1;
        assert x in s.adj;
        assert x in unsettled;
        assert Stop(origin, q, |q|) == x;
        FirstUnsettled(s, origin, unsettled, dist, prev, rank, round, q);
        var y :| y in unsettled && AtMost(dist[y], Fin(Cost(q)));
        CostLast(r);
        assert AtMost(dist[y], Fin(Cost(r)));
      }
    }
  }

  lemma StepLower(s: Store, origin: Zone, unsettled: seq<Zone>, dist: map<Zone, Dist>,
                  prev: map<Zone, Option<Zone>>, rank: map<Zone, nat>, round: nat,
                  u: Zone, dist': map<Zone, Dist>, prev': map<Zone, Option<Zone>>)
    requires s.Closed()
    requires Queue(s, unsettled, rank, round) && Labels(s, origin, dist, prev) && Ordered(dist, rank, unsettled)
    requires Stable(s, dist, rank) && Lower(s, origin, dist, rank)
    requires u in unsettled
    requires forall z :: z in unsettled ==> AtMost(dist[u], dist[z])
    requires Relaxed(u, s.adj[u], dist, prev, dist', prev')
    ensures Lower(s, origin, dist', rank[u := round])
  {
    var rank' := rank[u := round];
    forall r | s.Route(origin, r) && Stop(origin, r, |r|) in rank' && Stop(origin, r, |r|) in dist'
      ensures AtMost(dist'[Stop(origin, r, |r|)], Fin(Cost(r)))
    {
      var e := Stop(origin, r, |r|);
      SettledKept(s, unsettled, dist, prev, rank, u, dist', prev', e);
      if e == u {
        FirstUnsettled(s, origin, unsettled, dist, prev, rank, round, r);
        var y :| y in unsettled && AtMost(dist[y], Fin(Cost(r)));
        AtMostTransitive(dist[u], dist[y], Fin(Cost(r)));
      }
    }
  }

  /** One round: `u` is the nearest unsettled zone and its links have been relaxed. */
  lemma SettleStep(s: Store, origin: Zone, unsettled: seq<Zone>, dist: map<Zone, Dist>,
                   prev: map<Zone, Option<Zone>>, rank: map<Zone, nat>, round: nat,
                   u: Zone, dist': map<Zone, Dist>, prev': map<Zone, Option<Zone>>)
    requires s.Closed()
    requires Settling(s, origin, unsettled, dist, prev, rank, round)
    requires u in unsettled
    requires forall z :: z in unsettled ==> AtMost(dist[u], dist[z])
    requires Relaxed(u, s.adj[u], dist, prev, dist', prev')
    ensures Settling(s, origin, Omit(unsettled, u), dist', prev', rank[u := round], round + 1)
  {
    StepQueue(s, unsettled, rank, round, u);
    StepLabels(s, origin, dist, prev, u, dist', prev');
    StepTree(s, origin, unsettled, dist, prev, rank, round, u, dist', prev');
    StepLabelled(s, origin, unsettled, dist, prev, rank, round, u, dist', prev');
    StepOrdered(s, origin, unsettled, dist, prev, rank, round, u, dist', prev');
    StepStable(s, origin, unsettled, dist, prev, rank, round, u, dist', prev');
    StepLower(s, origin, unsettled, dist, prev, rank, round, u, dist', prev');
  }

  // ----- the reconstruction loop -----

  /** `a` is the recorded predecessor of `b`. */
  ghost predicate Follows(prev: map<Zone, Option<Zone>>, a: Zone, b: Zone)
  {
    b in prev && prev[b] == Some(a)
  }

  /** The measure of the reconstruction loop: predecessors have smaller ranks. */
  ghost function Height(rank: map<Zone, nat>, cur: Option<Zone>): nat
  {
    match cur
    case None => 0
    case Some(z) => if z in rank then rank[z] + 2 else 1
  }

  /**
   * The state of the reconstruction loop: `path` ends at the destination,
   * each of its zones after the first has the zone before it as its
   * recorded predecessor, its consecutive zones are linked, were settled in
   * increasing order and, but for the last, have finite distances; `cur` is
   * the predecessor of its first zone, or nothing once there is none.
   */
  ghost predicate Chain(s: Store, dist: map<Zone, Dist>, prev: map<Zone, Option<Zone>>, rank: map<Zone, nat>,
                        destination: Zone, path: seq<Zone>, cur: Option<Zone>)
  {
    && (path == [] ==> cur == Some(destination))
    && (path != [] ==> path[|path| - 1] == destination)
    && (path != [] && cur.Some? ==> path[0] in prev && prev[path[0]] == cur)
    && (path != [] && cur.None? ==> path[0] !in prev || prev[path[0]].None?)
    && (forall i :: 0 <= i < |path| - 1 ==> Follows(prev, path[i], path[i + 1]))
    && (forall i :: 0 <= i < |path| - 1 ==> s.Linked(path[i], path[i + 1]))
    && (forall i :: 0 <= i < |path| - 1 ==> path[i] in dist && dist[path[i]].Fin?)
    && (forall i, j :: 0 <= i < j < |path| ==> path[i] in rank && path[j] in rank && rank[path[i]] < rank[path[j]])
  }

  /** One step back: `cur` is prepended and its own predecessor, if any, becomes the next. */
  lemma ChainStep(s: Store, origin: Zone, dist: map<Zone, Dist>, prev: map<Zone, Option<Zone>>,
                  rank: map<Zone, nat>, round: nat, destination: Zone, path: seq<Zone>, cur: Option<Zone>)
    requires Queue(s, [], rank, round) && Labels(s, origin, dist, prev) && Tree(s, dist, prev, rank)
    requires Chain(s, dist, prev, rank, destination, path, cur) && cur.Some?
    ensures var next := if cur.value in prev then prev[cur.value] else None;
      && Chain(s, dist, prev, rank, destination, [cur.value] + path, next)
      && Height(rank, next) < Height(rank, cur)
  {
    var z := cur.value;
    var path' := [z] + path;
    if z in prev && prev[z].Some? {
      assert Edge(s, dist, rank, prev[z].value, z);
    }
    if path != [] {
      assert Edge(s, dist, rank, z, path[0]);
      forall i | 0 <= i < |path'| - 1
        ensures Follows(prev, path'[i], path'[i + 1])
        ensures s.Linked(path'[i], path'[i + 1])
        ensures path'[i] in dist && dist[path'[i]].Fin?
      {
        if i > 0 {
          assert path'[i] == path[i - 1] && path'[i + 1] == path[i];
        }
      }
      forall i, j | 0 <= i < j < |path'|
        ensures path'[i] in rank && path'[j] in rank && rank[path'[i]] < rank[path'[j]]
      {
        if i > 0 {
          assert path'[i] == path[i - 1] && path'[j] == path[j - 1];
        } else if j > 1 {
          assert path'[j] == path[j - 1];
        }
      }
    }
  }

  /**
   * When the walk back stops, `path` is a walk ending at the destination
   * with no zone twice, and it starts at the origin exactly when the
   * destination can be reached from the origin.
   */
  lemma ChainDone(s: Store, origin: Zone, dist: map<Zone, Dist>, prev: map<Zone, Option<Zone>>,
                  rank: map<Zone, nat>, round: nat, destination: Zone, path: seq<Zone>)
    requires s.Closed()
    requires Queue(s, [], rank, round) && Labels(s, origin, dist, prev)
    requires Labelled(origin, dist, prev) && Stable(s, dist, rank)
    requires Chain(s, dist, prev, rank, destination, path, None)
    ensures s.Walk(path) && path[|path| - 1] == destination
    ensures Distinct(path)
    ensures path[0] == origin <==> s.Reachable(origin, destination)
  {
    if path[0] == origin {
      assert s.Walk(path) && path[0] == origin && path[|path| - 1] == destination;
    }
    if s.Reachable(origin, destination) {
      var p :| s.Walk(p) && p[0] == origin && p[|p| - 1] == destination;
      if origin !in s.adj {
        ClosedSetHoldsWalks(s, {origin}, origin);
      } else {
        var v := set z | z in s.adj && z in dist && dist[z].Fin?;
        forall u | u in v && u in s.adj
          ensures Targets(s.adj[u]) <= v
        {
          forall t | t in Targets(s.adj[u])
            ensures t in v
          {
            var l :| l in s.adj[u] && l.to == t;
            assert AtMost(dist[t], Plus(dist[u], l.weight));
          }
        }
        ClosedSetHoldsWalks(s, v, origin);
        assert destination in v;
        if |path| > 1 {
          assert path[0] in dist && dist[path[0]].Fin?;
          assert s.Linked(path[0], path[1]);
        }
      }
    }
  }

  /**
   * A finished chain that does not start at the origin is the destination
   * alone: a chain of two or more zones starts at a zone with a finite
   * distance, which has a predecessor unless it is the origin.
   */
  lemma ChainShort(s: Store, origin: Zone, dist: map<Zone, Dist>, prev: map<Zone, Option<Zone>>,
                   rank: map<Zone, nat>, destination: Zone, path: seq<Zone>)
    requires Labels(s, origin, dist, prev) && Labelled(origin, dist, prev)
    requires Chain(s, dist, prev, rank, destination, path, None)
    ensures path != [] && (path[0] != origin ==> path == [destination])
  {
    if |path| > 1 {
      assert path[0] in dist && dist[path[0]].Fin?;
      assert s.Linked(path[0], path[1]);
    }
  }

  /**
   * Following the recorded predecessors, `path` is the trace of a route
   * from its first zone whose cost, added to that zone's distance, is the
   * distance of its last zone.
   */
  lemma {:induction false} ChainRoute(s: Store, dist: map<Zone, Dist>, prev: map<Zone, Option<Zone>>,
                                      rank: map<Zone, nat>, path: seq<Zone>)
    requires Tree(s, dist, prev, rank)
    requires |path| > 0 && path[0] in dist
    requires forall i :: 0 <= i < |path| - 1 ==> Follows(prev, path[i], path[i + 1])
    ensures exists r :: && s.Route(path[0], r) && Along(r, path)
                        && path[|path| - 1] in dist && dist[path[|path| - 1]] == Plus(dist[path[0]], Cost(r))
  {
    if |path| == 1 {
      assert s.Route(path[0], []) && Along([], path);
    } else {
      var front := path[..|path| - 1];
      ChainRoute(s, dist, prev, rank, front);
      var r :| && s.Route(front[0], r) && Along(r, front)
               && front[|front| - 1] in dist && dist[front[|front| - 1]] == Plus(dist[front[0]], Cost(r));
      var a, b := path[|path| - 2], path[|path| - 1];
      assert prev[b] == Some(a);
      assert Edge(s, dist, rank, a, b);
      var l :| l in s.adj[a] && l.to == b && dist[b] == Plus(dist[a], l.weight);
      assert Stop(path[0], r, |r|) == a;
      RouteExtend(s, path[0], r, l);
      assert Along(r + [l], path);
    }
  }

  /**
   * A path the walk back leads to the origin is the trace of a cheapest
   * route: its cost is the destination's distance, which no route undercuts.
   */
  lemma ChainCheapest(s: Store, origin: Zone, dist: map<Zone, Dist>, prev: map<Zone, Option<Zone>>,
                      rank: map<Zone, nat>, round: nat, destination: Zone, path: seq<Zone>)
    requires Queue(s, [], rank, round) && Labels(s, origin, dist, prev)
    requires Tree(s, dist, prev, rank) && Lower(s, origin, dist, rank)
    requires Chain(s, dist, prev, rank, destination, path, None)
    requires path != [] && path[0] == origin
    ensures s.Cheapest(path)
  {
    ChainRoute(s, dist, prev, rank, path);
    var r :| && s.Route(path[0], r) && Along(r, path)
             && path[|path| - 1] in dist && dist[path[|path| - 1]] == Plus(dist[path[0]], Cost(r));
    var z := path[|path| - 1];
    assert dist[z] == Fin(Cost(r));
    if |path| > 1 {
      assert z in rank;
      SettledCheapest(s, origin, dist, rank, z, Cost(r));
    }
    assert forall r' :: s.Route(path[0], r') && Stop(path[0], r', |r'|) == z ==> Cost(r) <= Cost(r');
  }

  /** A settled zone at distance `c` has no route from the origin cheaper than `c`. */
  lemma SettledCheapest(s: Store, origin: Zone, dist: map<Zone, Dist>, rank: map<Zone, nat>, z: Zone, c: nat)
    requires Lower(s, origin, dist, rank)
    requires z in rank && z in dist && dist[z] == Fin(c)
    ensures forall r :: s.Route(origin, r) && Stop(origin, r, |r|) == z ==> c <= Cost(r)
  {
    forall r | s.Route(origin, r) && Stop(origin, r, |r|) == z
      ensures c <= Cost(r)
    {
      assert AtMost(dist[Stop(origin, r, |r|)], Fin(Cost(r)));
    }
  }
}
