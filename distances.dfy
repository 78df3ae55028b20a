/**
 * The two steps of the Dijkstra loop: choosing the nearest unsettled zone
 * and relaxing the links of the zone just settled.  Tentative distances
 * are `Infinity` or a finite total weight.
 */
module Distances {
  import opened Links
  import opened Wrappers

  datatype Dist = Inf | Fin(n: nat)

  /** The strict `<` of JavaScript numbers, restricted to naturals and `Infinity`. */
  predicate Below(a: Dist, b: Dist)
  {
    match a
    case Inf => false
    case Fin(x) => b.Inf? || x < b.n
  }

  predicate AtMost(a: Dist, b: Dist)
  {
    !Below(b, a)
  }

  /** `d + w`, where `Infinity + w` is `Infinity`. */
  function Plus(d: Dist, w: nat): (r: Dist)
    ensures AtMost(d, r)
    ensures r.Fin? <==> d.Fin?
  {
    match d
    case Inf => Inf
    case Fin(x) => Fin(x + w)
  }

  /**
   * The scan `if (u === null || dist[n] < dist[u]) u = n` over the unsettled
   * zones in order: the result has the least distance, and every zone
   * before it is strictly farther, so it is the first zone of least distance.
   */
  method SelectNearest(unsettled: seq<Zone>, dist: map<Zone, Dist>) returns (u: Zone)
    requires |unsettled| > 0 && Distinct(unsettled)
    requires forall z :: z in unsettled ==> z in dist
    ensures u in unsettled
    ensures forall z :: z in unsettled ==> AtMost(dist[u], dist[z])
    ensures forall i, j :: 0 <= i < j < |unsettled| && unsettled[j] == u
                        ==> Below(dist[u], dist[unsettled[i]])
  {
    var best: Option<Zone> := None;
    for k := 0 to |unsettled|
      invariant k == 0 <==> best.None?
      invariant best.Some? ==> best.value in unsettled[..k]
      invariant best.Some? ==> forall z :: z in unsettled[..k] ==> AtMost(dist[best.value], dist[z])
      invariant best.Some? ==> forall i, j :: 0 <= i < j < k && unsettled[j] == best.value
                                          ==> Below(dist[best.value], dist[unsettled[i]])
    {
      assert unsettled[..k + 1] == unsettled[..k] + [unsettled[k]];
      if best.None? || Below(dist[unsettled[k]], dist[best.value]) {
        best := Some(unsettled[k]);
      }
    }
    assert unsettled[..|unsettled|] == unsettled;
    u := best.value;
  }

  lemma AtMostTransitive(a: Dist, b: Dist, c: Dist)
    requires AtMost(a, b) && AtMost(b, c)
    ensures AtMost(a, c)
  {
  }

  lemma BelowAtMost(a: Dist, b: Dist, c: Dist)
    requires Below(a, b) && AtMost(b, c)
    ensures Below(a, c)
  {
  }

  lemma AtMostAntisymmetric(a: Dist, b: Dist)
    requires AtMost(a, b) && AtMost(b, a)
    ensures a == b
  {
  }

  lemma AtMostZero(d: Dist)
    requires AtMost(d, Fin(0))
    ensures d == Fin(0)
  {
  }

  /**
   * What relaxing the links of `u` does to the distances and predecessors:
   * the distances are `Kept` in the sense below; the predecessors change as
   * `Lowered` says; and, as `Offered` says, no link of `u` offers a shorter
   * distance than the one its target now has.
   */
  ghost predicate Relaxed(u: Zone, links: seq<Link>,
                          dist: map<Zone, Dist>, prev: map<Zone, Option<Zone>>,
                          dist': map<Zone, Dist>, prev': map<Zone, Option<Zone>>)
    requires u in dist
  {
    Kept(u, dist, dist') && Lowered(u, links, dist, prev, dist', prev') && Offered(u, links, dist, dist')
  }

  /** The same zones have distances, none grows, and `u`'s stays. */
  ghost predicate Kept(u: Zone, dist: map<Zone, Dist>, dist': map<Zone, Dist>)
    requires u in dist
  {
    && dist'.Keys == dist.Keys
    && dist'[u] == dist[u]
    && (forall v :: v in dist ==> AtMost(dist'[v], dist[v]))
  }

  /**
   * A distance that shrank now comes through `u`, which had a finite
   * distance: it is `u`'s distance plus the weight of one of `u`'s links to
   * that zone, and `u` is its predecessor; the other predecessors stay.
   */
  ghost predicate Lowered(u: Zone, links: seq<Link>,
                          dist: map<Zone, Dist>, prev: map<Zone, Option<Zone>>,
                          dist': map<Zone, Dist>, prev': map<Zone, Option<Zone>>)
    requires u in dist && dist'.Keys == dist.Keys
  {
    && (forall v :: v in prev' <==> v in prev || (v in dist && Below(dist'[v], dist[v])))
    && (forall v :: v in dist && Below(dist'[v], dist[v]) ==> prev'[v] == Some(u))
    && (forall v :: v in dist && Below(dist'[v], dist[v]) ==>
          exists l :: l in links && l.to == v && dist'[v] == Plus(dist[u], l.weight))
    && (forall v :: v in prev && !(v in dist && Below(dist'[v], dist[v])) ==> prev'[v] == prev[v])
  }

  /** A lowered zone is the target of a link of `u`, `u`'s distance is finite and no larger than the new one. */
  lemma LoweredThrough(u: Zone, links: seq<Link>,
                       dist: map<Zone, Dist>, prev: map<Zone, Option<Zone>>,
                       dist': map<Zone, Dist>, prev': map<Zone, Option<Zone>>, v: Zone)
    requires u in dist && dist'.Keys == dist.Keys
    requires Lowered(u, links, dist, prev, dist', prev')
    requires v in dist && Below(dist'[v], dist[v])
    ensures prev'[v] == Some(u) && v in Targets(links) && dist[u].Fin? && AtMost(dist[u], dist'[v])
  {
    var l :| l in links && l.to == v && dist'[v] == Plus(dist[u], l.weight);
  }

  /** No link in `links` offers a shorter distance than the one its target has. */
  ghost predicate Offered(u: Zone, links: seq<Link>, dist: map<Zone, Dist>, dist': map<Zone, Dist>)
    requires u in dist && dist'.Keys == dist.Keys
  {
    forall l :: l in links && l.to in dist ==> AtMost(dist'[l.to], Plus(dist[u], l.weight))
  }

  /**
   * The relaxation loop over the links of the settled zone `u`: for each
   * link, `alt = dist[u] + peso` replaces `dist[nodo]` and makes `u` the
   * predecessor of `nodo` when it is strictly smaller.
   */
  method Relax(u: Zone, links: seq<Link>, dist: map<Zone, Dist>, prev: map<Zone, Option<Zone>>)
    returns (dist': map<Zone, Dist>, prev': map<Zone, Option<Zone>>)
    requires u in dist
    ensures Relaxed(u, links, dist, prev, dist', prev')
  {
    dist', prev' := dist, prev;
    for k := 0 to |links|
      invariant Relaxed(u, links[..k], dist, prev, dist', prev')
    {
      assert links[..k + 1] == links[..k] + [links[k]];
      var alt := Plus(dist'[u], links[k].weight);
      var v := links[k].to;
      if v in dist' && Below(alt, dist'[v]) {
        RelaxLower(u, links[..k], links[k], dist, prev, dist', prev');
        dist' := dist'[v := alt];
        prev' := prev'[v := Some(u)];
      } else {
        RelaxSkip(u, links[..k], links[k], dist, prev, dist', prev');
      }
    }
    assert links[..|links|] == links;
  }

  /** A link that offers no shorter distance changes nothing. */
  lemma RelaxSkip(u: Zone, links: seq<Link>, l: Link, dist: map<Zone, Dist>, prev: map<Zone, Option<Zone>>,
                  dist': map<Zone, Dist>, prev': map<Zone, Option<Zone>>)
    requires u in dist
    requires Relaxed(u, links, dist, prev, dist', prev')
    requires !(l.to in dist' && Below(Plus(dist'[u], l.weight), dist'[l.to]))
    ensures Relaxed(u, links + [l], dist, prev, dist', prev')
  {
    forall v | v in dist && Below(dist'[v], dist[v])
      ensures exists m :: m in links + [l] && m.to == v && dist'[v] == Plus(dist[u], m.weight)
    {
      var m :| m in links && m.to == v && dist'[v] == Plus(dist[u], m.weight);
      assert m in links + [l];
    }
  }

  /** A link that offers a shorter distance lowers it and makes `u` the predecessor. */
  lemma RelaxLower(u: Zone, links: seq<Link>, l: Link, dist: map<Zone, Dist>, prev: map<Zone, Option<Zone>>,
                   dist': map<Zone, Dist>, prev': map<Zone, Option<Zone>>)
    requires u in dist
    requires Relaxed(u, links, dist, prev, dist', prev')
    requires l.to in dist' && Below(Plus(dist'[u], l.weight), dist'[l.to])
    ensures Relaxed(u, links + [l], dist, prev, dist'[l.to := Plus(dist'[u], l.weight)], prev'[l.to := Some(u)])
  {
    LowerKept(u, l, dist, dist');
    LowerLowered(u, links, l, dist, prev, dist', prev');
    LowerOffered(u, links, l, dist, dist');
  }

  lemma LowerKept(u: Zone, l: Link, dist: map<Zone, Dist>, dist': map<Zone, Dist>)
    requires u in dist
    requires Kept(u, dist, dist')
    requires l.to in dist' && Below(Plus(dist'[u], l.weight), dist'[l.to])
    ensures Kept(u, dist, dist'[l.to := Plus(dist'[u], l.weight)])
  {
    var d := dist'[l.to := Plus(dist'[u], l.weight)];
    forall v | v in dist
      ensures AtMost(d[v], dist[v])
    {
      if v == l.to {
        AtMostTransitive(d[v], dist'[v], dist[v]);
      }
    }
  }

  lemma LowerLowered(u: Zone, links: seq<Link>, l: Link, dist: map<Zone, Dist>, prev: map<Zone, Option<Zone>>,
                     dist': map<Zone, Dist>, prev': map<Zone, Option<Zone>>)
    requires u in dist
    requires Kept(u, dist, dist') && Lowered(u, links, dist, prev, dist', prev')
    requires l.to in dist' && Below(Plus(dist'[u], l.weight), dist'[l.to])
    ensures Lowered(u, links + [l], dist, prev, dist'[l.to := Plus(dist'[u], l.weight)], prev'[l.to := Some(u)])
  {
    LowerBelow(u, l, dist, dist');
    LowerWitness(u, links, l, dist, prev, dist', prev');
  }

  /** Lowering `l.to` once more adds exactly `l.to` to the lowered zones. */
  lemma LowerBelow(u: Zone, l: Link, dist: map<Zone, Dist>, dist': map<Zone, Dist>)
    requires u in dist && Kept(u, dist, dist')
    requires l.to in dist' && Below(Plus(dist'[u], l.weight), dist'[l.to])
    ensures var d := dist'[l.to := Plus(dist'[u], l.weight)];
      forall v :: v in dist ==> (Below(d[v], dist[v]) <==> Below(dist'[v], dist[v]) || v == l.to)
  {
    var d := dist'[l.to := Plus(dist'[u], l.weight)];
    forall v | v in dist
      ensures Below(d[v], dist[v]) <==> Below(dist'[v], dist[v]) || v == l.to
    {
      if v == l.to {
        BelowAtMost(d[v], dist'[v], dist[v]);
      }
    }
  }

  /** Every zone lowered so far has a witness link among `links + [l]`. */
  lemma LowerWitness(u: Zone, links: seq<Link>, l: Link, dist: map<Zone, Dist>, prev: map<Zone, Option<Zone>>,
                     dist': map<Zone, Dist>, prev': map<Zone, Option<Zone>>)
    requires u in dist
    requires Kept(u, dist, dist') && Lowered(u, links, dist, prev, dist', prev')
    requires l.to in dist' && Below(Plus(dist'[u], l.weight), dist'[l.to])
    ensures var d := dist'[l.to := Plus(dist'[u], l.weight)];
      forall v :: v in dist && Below(d[v], dist[v]) ==>
        exists m :: m in links + [l] && m.to == v && d[v] == Plus(dist[u], m.weight)
  {
    var d := dist'[l.to := Plus(dist'[u], l.weight)];
    LowerBelow(u, l, dist, dist');
    assert l in links + [l];
    forall v | v in dist && Below(d[v], dist[v])
      ensures exists m :: m in links + [l] && m.to == v && d[v] == Plus(dist[u], m.weight)
    {
      if v != l.to {
        var m :| m in links && m.to == v && dist'[v] == Plus(dist[u], m.weight);
        assert m in links + [l];
      }
    }
  }

  lemma LowerOffered(u: Zone, links: seq<Link>, l: Link, dist: map<Zone, Dist>, dist': map<Zone, Dist>)
    requires u in dist
    requires Kept(u, dist, dist') && Offered(u, links, dist, dist')
    requires l.to in dist' && Below(Plus(dist'[u], l.weight), dist'[l.to])
    ensures Offered(u, links + [l], dist, dist'[l.to := Plus(dist'[u], l.weight)])
  {
    var d := dist'[l.to := Plus(dist'[u], l.weight)];
    forall m | m in links + [l] && m.to in dist
      ensures AtMost(d[m.to], Plus(dist[u], m.weight))
    {
      if m.to != l.to {
        assert m in links;
      } else if m != l {
        assert m in links;
        AtMostTransitive(d[m.to], dist'[m.to], Plus(dist[u], m.weight));
      }
    }
  }

  /** The initialisation loop `for (n of nodos) { dist[n] = Infinity; previo[n] = null; }`. */
  method Unreached(zones: seq<Zone>) returns (dist: map<Zone, Dist>, prev: map<Zone, Option<Zone>>)
    ensures forall z :: z in dist <==> z in zones
    ensures forall z :: z in prev <==> z in zones
    ensures forall z :: z in dist ==> dist[z] == Inf
    ensures forall z :: z in prev ==> prev[z] == None
  {
    dist, prev := map[], map[];
    for k := 0 to |zones|
      invariant forall z :: z in dist <==> z in zones[..k]
      invariant forall z :: z in prev <==> z in zones[..k]
      invariant forall z :: z in dist ==> dist[z] == Inf
      invariant forall z :: z in prev ==> prev[z] == None
    {
      assert zones[..k + 1] == zones[..k] + [zones[k]];
      dist := dist[zones[k] := Inf];
      prev := prev[zones[k] := None];
    }
    assert zones[..|zones|] == zones;
  }
}
