/**
 * The adjacency store `this.ady` of the graph, as a value: the zones in
 * insertion order (the iteration order of the object's keys) and the map
 * from each zone to its ordered list of links.  The four mutations of the
 * graph are given here as functions from the old store to the new one,
 * and their properties are proved about those functions.
 */
module Stores {
  import opened Links

  /** The key order after `delete`: the other keys, in their order. */
  function Omit(keys: seq<Zone>, x: Zone): (r: seq<Zone>)
    ensures forall z :: z in r <==> z in keys && z != x
  {
    if keys == [] then []
    else if keys[0] == x then Omit(keys[1..], x)
    else [keys[0]] + Omit(keys[1..], x)
  }

  lemma {:induction false} OmitShorter(keys: seq<Zone>, x: Zone)
    requires x in keys
    ensures |Omit(keys, x)| < |keys|
  {
    if keys[0] != x {
      OmitShorter(keys[1..], x);
    } else if x in keys[1..] {
      OmitShorter(keys[1..], x);
    } else {
      OmitAbsent(keys[1..], x);
    }
  }

  lemma {:induction false} OmitAbsent(keys: seq<Zone>, x: Zone)
    requires x !in keys
    ensures Omit(keys, x) == keys
  {
    if keys != [] {
      OmitAbsent(keys[1..], x);
    }
  }

  lemma {:induction false} OmitDistinct(keys: seq<Zone>, x: Zone)
    requires Distinct(keys)
    ensures Distinct(Omit(keys, x))
  {
    if keys != [] {
      assert Distinct(keys[1..]);
      OmitDistinct(keys[1..], x);
      assert keys[0] !in keys[1..];
    }
  }

  datatype Store = Store(keys: seq<Zone>, adj: map<Zone, seq<Link>>) {

    /** The key sequence lists every zone of the map exactly once. */
    ghost predicate Indexed()
    {
      Distinct(keys) && forall z :: z in adj <==> z in keys
    }

    /** The links stored under `z`, none when `z` is not a zone. */
    function LinksOf(z: Zone): seq<Link>
    {
      if z in adj then adj[z] else []
    }

    /**
     * Every street is stored once in each direction: `a` holds as many
     * links `{b, w}` as `b` holds links `{a, w}`.
     */
    ghost predicate Symmetric()
    {
      forall a: Zone, b: Zone, w: nat :: Count(LinksOf(a), Link(b, w)) == Count(LinksOf(b), Link(a, w))
    }

    /** The invariant every graph keeps between calls. */
    ghost predicate Valid()
    {
      Indexed() && Symmetric()
    }

    /** Every link leads to a zone of the store. */
    ghost predicate Closed()
    {
      forall a, l :: a in adj && l in adj[a] ==> l.to in adj
    }

    /** `a` is a zone with a stored link to `b`. */
    ghost predicate Linked(a: Zone, b: Zone)
    {
      a in adj && b in Targets(adj[a])
    }

    /** A non-empty zone sequence whose consecutive zones are joined by stored links. */
    ghost predicate Walk(p: seq<Zone>)
    {
      |p| > 0 && forall i :: 0 <= i < |p| - 1 ==> Linked(p[i], p[i + 1])
    }

    ghost predicate Reachable(a: Zone, b: Zone)
    {
      exists p :: Walk(p) && p[0] == a && p[|p| - 1] == b
    }

    /** `r` is a route from `a`: each link is stored under the zone the previous one led to. */
    ghost predicate Route(a: Zone, r: seq<Link>)
    {
      forall i {:trigger Stop(a, r, i)} :: 0 <= i < |r| ==> Stop(a, r, i) in adj && r[i] in adj[Stop(a, r, i)]
    }

    /**
     * `path` is followed by a route from its first zone to its last whose
     * total weight no route between the same two zones undercuts.
     */
    ghost predicate Cheapest(path: seq<Zone>)
      requires |path| > 0
    {
      exists r :: Route(path[0], r) && Along(r, path)
                  && forall r' :: Route(path[0], r') && Stop(path[0], r', |r'|) == path[|path| - 1] ==> Cost(r) <= Cost(r')
    }

    /** `agregarBarrio(x)`: an empty list for `x` unless `x` is already a zone. */
    function WithZone(x: Zone): (r: Store)
      ensures r.adj.Keys == adj.Keys + {x}
    {
      if x in adj then this else Store(keys + [x], adj[x := []])
    }

    /** `ady[a].push(l)` */
    function Push(a: Zone, l: Link): (r: Store)
      requires a in adj
      ensures r.keys == keys && r.adj.Keys == adj.Keys
    {
      Store(keys, adj[a := adj[a] + [l]])
    }

    /** `agregarCalle(a, b, w)`: make sure both zones exist, then push `{b, w}` onto `a` and `{a, w}` onto `b`. */
    function WithStreet(a: Zone, b: Zone, w: nat): (r: Store)
      ensures r.adj.Keys == adj.Keys + {a, b}
    {
      var s := WithZone(a).WithZone(b);
      s.Push(a, Link(b, w)).Push(b, Link(a, w))
    }

    /** `eliminarBarrio(x)`: delete the entry of `x`, then filter the links to `x` out of every other list. */
    function WithoutZone(x: Zone): (r: Store)
      ensures x !in r.adj && r.adj.Keys == adj.Keys - {x}
    {
      Store(Omit(keys, x), map z | z in adj && z != x :: Without(adj[z], x))
    }

    /** `cerrarCalle(a, b)`: filter `b` out of `a`'s list, then `a` out of `b`'s list. */
    function WithoutStreet(a: Zone, b: Zone): (r: Store)
      requires a in adj && b in adj
      ensures r.adj.Keys == adj.Keys
    {
      var s := Store(keys, adj[a := Without(adj[a], b)]);
      Store(s.keys, s.adj[b := Without(s.adj[b], a)])
    }
  }

  // ----- routes -----

  /** The zone a route from `a` has reached after its first `i` links. */
  function Stop(a: Zone, r: seq<Link>, i: nat): Zone
    requires i <= |r|
  {
    if i == 0 then a else r[i - 1].to
  }

  /** The total weight of a route. */
  function Cost(r: seq<Link>): nat
  {
    if r == [] then 0 else Cost(r[..|r| - 1]) + r[|r| - 1].weight
  }

  /** The links of `r` lead, one after the other, to the zones of `path` after its first. */
  ghost predicate Along(r: seq<Link>, path: seq<Zone>)
  {
    |path| == |r| + 1 && forall i :: 0 <= i < |r| ==> r[i].to == path[i + 1]
  }

  /** A route minus its last link is a route, and that link leaves from where the rest arrives. */
  lemma RouteLast(s: Store, a: Zone, r: seq<Link>)
    requires s.Route(a, r) && r != []
    ensures s.Route(a, r[..|r| - 1])
    ensures Stop(a, r, |r| - 1) in s.adj && r[|r| - 1] in s.adj[Stop(a, r, |r| - 1)]
    ensures Stop(a, r[..|r| - 1], |r| - 1) == Stop(a, r, |r| - 1)
  {
    var q := r[..|r| - 1];
    forall i {:trigger Stop(a, q, i)} | 0 <= i < |q|
      ensures Stop(a, q, i) in s.adj && q[i] in s.adj[Stop(a, q, i)]
    {
      assert Stop(a, q, i) == Stop(a, r, i);
    }
  }

  /** The cost of a route is the cost of all but its last link plus that link's weight. */
  lemma CostLast(r: seq<Link>)
    requires r != []
    ensures Cost(r) == Cost(r[..|r| - 1]) + r[|r| - 1].weight
  {
  }

  /** A route extended by a link stored under its last stop is a route. */
  lemma RouteExtend(s: Store, a: Zone, r: seq<Link>, l: Link)
    requires s.Route(a, r)
    requires Stop(a, r, |r|) in s.adj && l in s.adj[Stop(a, r, |r|)]
    ensures s.Route(a, r + [l])
    ensures Stop(a, r + [l], |r| + 1) == l.to
    ensures Cost(r + [l]) == Cost(r) + l.weight
  {
    assert (r + [l])[..|r|] == r;
    RouteExtendStops(s, a, r, l);
  }

  lemma RouteExtendStops(s: Store, a: Zone, r: seq<Link>, l: Link)
    requires s.Route(a, r)
    requires Stop(a, r, |r|) in s.adj && l in s.adj[Stop(a, r, |r|)]
    ensures s.Route(a, r + [l])
  {
    var q := r + [l];
    forall i {:trigger Stop(a, q, i)} | 0 <= i < |q|
      ensures Stop(a, q, i) in s.adj && q[i] in s.adj[Stop(a, q, i)]
    {
      if i < |r| {
        assert q[i] == r[i] && Stop(a, q, i) == Stop(a, r, i);
      }
    }
  }

  // ----- the symmetry invariant -----

  /** Symmetry implies that no link dangles. */
  lemma SymmetricClosed(s: Store)
    requires s.Symmetric()
    ensures s.Closed()
  {
    forall a, l | a in s.adj && l in s.adj[a] ensures l.to in s.adj {
      assert Count(s.LinksOf(a), Link(l.to, l.weight)) > 0;
      assert Count(s.LinksOf(l.to), Link(a, l.weight)) > 0;
    }
  }

  /** Under symmetry a direct link from `a` to `b` is one from `b` to `a`. */
  lemma LinkedSymmetric(s: Store, a: Zone, b: Zone)
    requires s.Symmetric()
    ensures s.Linked(a, b) <==> s.Linked(b, a)
  {
    if s.Linked(a, b) { LinkedBack(s, a, b); }
    if s.Linked(b, a) { LinkedBack(s, b, a); }
  }

  lemma LinkedBack(s: Store, a: Zone, b: Zone)
    requires s.Symmetric() && s.Linked(a, b)
    ensures s.Linked(b, a)
  {
    var l :| l in s.adj[a] && l.to == b;
    assert Count(s.LinksOf(a), Link(b, l.weight)) > 0;
    assert Count(s.LinksOf(b), Link(a, l.weight)) > 0;
    assert Link(a, l.weight) in s.adj[b];
  }

  // ----- agregarBarrio -----

  /** Adding a zone twice is adding it once, and adding an existing zone changes nothing. */
  lemma WithZoneIdempotent(s: Store, x: Zone)
    ensures s.WithZone(x).WithZone(x) == s.WithZone(x)
    ensures x in s.adj ==> s.WithZone(x) == s
  {
  }

  /** A new zone goes to the end of the key order with no links; no list changes. */
  lemma WithZoneSpec(s: Store, x: Zone)
    requires s.Indexed()
    ensures s.WithZone(x).Indexed()
    ensures s.WithZone(x).keys == if x in s.adj then s.keys else s.keys + [x]
    ensures s.WithZone(x).adj[x] == s.LinksOf(x)
    ensures forall z :: s.WithZone(x).LinksOf(z) == s.LinksOf(z)
    ensures s.Symmetric() ==> s.WithZone(x).Symmetric()
  {
    var r := s.WithZone(x);
    if x !in s.adj {
      forall i, j | 0 <= i < j < |r.keys| ensures r.keys[i] != r.keys[j] {
        if j == |s.keys| { assert r.keys[i] == s.keys[i] && s.keys[i] in s.adj; }
      }
      assert forall z :: z in r.adj <==> z in r.keys;
    }
  }

  // ----- agregarCalle -----

  /** The counting view of `push`: one more copy of `l` in `a`'s list, every other count unchanged. */
  lemma PushCount(s: Store, a: Zone, l: Link, p: Zone, m: Link)
    requires a in s.adj
    ensures Count(s.Push(a, l).LinksOf(p), m) == Count(s.LinksOf(p), m) + (if p == a && m == l then 1 else 0)
  {
  }

  /** The counting view of `agregarCalle`: one more `{b, w}` under `a` and one more `{a, w}` under `b`. */
  lemma WithStreetCount(s: Store, a: Zone, b: Zone, w: nat, p: Zone, l: Link)
    ensures Count(s.WithStreet(a, b, w).LinksOf(p), l)
         == Count(s.LinksOf(p), l)
            + (if p == a && l == Link(b, w) then 1 else 0)
            + (if p == b && l == Link(a, w) then 1 else 0)
  {
    var t := s.WithZone(a).WithZone(b);
    assert forall z :: t.LinksOf(z) == s.LinksOf(z);
    var u := t.Push(a, Link(b, w));
    var r := u.Push(b, Link(a, w));
    PushCount(t, a, Link(b, w), p, l);
    PushCount(u, b, Link(a, w), p, l);
  }

  lemma WithStreetSymmetric(s: Store, a: Zone, b: Zone, w: nat)
    requires s.Symmetric()
    ensures s.WithStreet(a, b, w).Symmetric()
  {
    var r := s.WithStreet(a, b, w);
    forall p: Zone, q: Zone, v: nat
      ensures Count(r.LinksOf(p), Link(q, v)) == Count(r.LinksOf(q), Link(p, v))
    {
      WithStreetCount(s, a, b, w, p, Link(q, v));
      WithStreetCount(s, a, b, w, q, Link(p, v));
    }
  }

  /**
   * `agregarCalle(a, b, w)` creates the missing zones at the end of the key
   * order and appends exactly `{b, w}` to `a`'s list and `{a, w}` to `b`'s
   * list (both to the same list when `a == b`); every other list is unchanged.
   */
  lemma WithStreetSpec(s: Store, a: Zone, b: Zone, w: nat)
    requires s.Indexed()
    ensures s.WithStreet(a, b, w).Indexed()
    ensures s.WithStreet(a, b, w).keys
         == s.keys + (if a in s.adj then [] else [a]) + (if b in s.adj || b == a then [] else [b])
    ensures a != b ==> (s.WithStreet(a, b, w).adj[a] == s.LinksOf(a) + [Link(b, w)]
                     && s.WithStreet(a, b, w).adj[b] == s.LinksOf(b) + [Link(a, w)])
    ensures a == b ==> s.WithStreet(a, b, w).adj[a] == s.LinksOf(a) + [Link(a, w), Link(a, w)]
    ensures forall z :: z != a && z != b ==> s.WithStreet(a, b, w).LinksOf(z) == s.LinksOf(z)
  {
    var t := s.WithZone(a);
    WithZoneSpec(s, a);
    var u := t.WithZone(b);
    WithZoneSpec(t, b);
    assert b in t.adj <==> b in s.adj || b == a;
    if a in s.adj {
      assert t.keys == s.keys + [];
    }
    if b in t.adj {
      assert u.keys == t.keys + [];
    }
    WithStreetLists(s, u, a, b, w);
  }

  lemma WithStreetLists(s: Store, u: Store, a: Zone, b: Zone, w: nat)
    requires u == s.WithZone(a).WithZone(b)
    requires u.Indexed()
    requires forall z :: u.LinksOf(z) == s.LinksOf(z)
    ensures s.WithStreet(a, b, w).Indexed()
    ensures s.WithStreet(a, b, w).keys == u.keys
    ensures a != b ==> (s.WithStreet(a, b, w).adj[a] == s.LinksOf(a) + [Link(b, w)]
                     && s.WithStreet(a, b, w).adj[b] == s.LinksOf(b) + [Link(a, w)])
    ensures a == b ==> s.WithStreet(a, b, w).adj[a] == s.LinksOf(a) + [Link(a, w), Link(a, w)]
    ensures forall z :: z != a && z != b ==> s.WithStreet(a, b, w).LinksOf(z) == s.LinksOf(z)
  {
    var v := u.Push(a, Link(b, w));
    var r := v.Push(b, Link(a, w));
    assert r.adj.Keys == u.adj.Keys;
    assert u.LinksOf(a) == s.LinksOf(a);
    assert u.LinksOf(b) == s.LinksOf(b);
  }

  // ----- eliminarBarrio -----

  /** The counting view of `eliminarBarrio(x)`: no link is left at or to `x`; every other link keeps its copies. */
  lemma WithoutZoneCount(s: Store, x: Zone, p: Zone, l: Link)
    ensures Count(s.WithoutZone(x).LinksOf(p), l)
         == if p == x || l.to == x then 0 else Count(s.LinksOf(p), l)
  {
    if p != x && p in s.adj {
      WithoutCount(s.adj[p], x, l);
    }
  }

  lemma WithoutZoneSymmetric(s: Store, x: Zone)
    requires s.Symmetric()
    ensures s.WithoutZone(x).Symmetric()
  {
    var r := s.WithoutZone(x);
    forall p: Zone, q: Zone, v: nat
      ensures Count(r.LinksOf(p), Link(q, v)) == Count(r.LinksOf(q), Link(p, v))
    {
      WithoutZoneCount(s, x, p, Link(q, v));
      WithoutZoneCount(s, x, q, Link(p, v));
    }
  }

  /**
   * After `eliminarBarrio(x)` the zone `x` is gone from the keys and from
   * every list, the other keys keep their order, and every other list is
   * the same list with the links to `x` filtered out.
   */
  lemma WithoutZoneSpec(s: Store, x: Zone)
    requires s.Indexed()
    ensures s.WithoutZone(x).Indexed()
    ensures s.WithoutZone(x).keys == Omit(s.keys, x)
    ensures x !in s.WithoutZone(x).adj
    ensures s.WithoutZone(x).adj.Keys == s.adj.Keys - {x}
    ensures forall z :: z in s.WithoutZone(x).adj ==> s.WithoutZone(x).adj[z] == Without(s.adj[z], x)
    ensures forall z, l :: z in s.WithoutZone(x).adj && l in s.WithoutZone(x).adj[z] ==> l.to != x
  {
    OmitDistinct(s.keys, x);
  }

  // ----- cerrarCalle -----

  /** The counting view of `cerrarCalle(a, b)`: every `a -> b` and `b -> a` link is gone; nothing else changes. */
  lemma WithoutStreetCount(s: Store, a: Zone, b: Zone, p: Zone, l: Link)
    requires a in s.adj && b in s.adj
    ensures Count(s.WithoutStreet(a, b).LinksOf(p), l)
         == if (p == a && l.to == b) || (p == b && l.to == a) then 0 else Count(s.LinksOf(p), l)
  {
    var t := Store(s.keys, s.adj[a := Without(s.adj[a], b)]);
    WithoutCount(s.adj[a], b, l);
    WithoutCount(t.adj[b], a, l);
  }

  lemma WithoutStreetSymmetric(s: Store, a: Zone, b: Zone)
    requires a in s.adj && b in s.adj
    requires s.Symmetric()
    ensures s.WithoutStreet(a, b).Symmetric()
  {
    var r := s.WithoutStreet(a, b);
    forall p: Zone, q: Zone, v: nat
      ensures Count(r.LinksOf(p), Link(q, v)) == Count(r.LinksOf(q), Link(p, v))
    {
      WithoutStreetCount(s, a, b, p, Link(q, v));
      WithoutStreetCount(s, a, b, q, Link(p, v));
    }
  }

  /**
   * `cerrarCalle(a, b)` keeps the keys, leaves `a`'s list filtered of the
   * links to `b` and `b`'s list filtered of the links to `a` (one list,
   * filtered once, when `a == b`), and leaves every other list alone.
   */
  lemma WithoutStreetSpec(s: Store, a: Zone, b: Zone)
    requires a in s.adj && b in s.adj
    requires s.Indexed()
    ensures s.WithoutStreet(a, b).Indexed()
    ensures s.WithoutStreet(a, b).keys == s.keys
    ensures s.WithoutStreet(a, b).adj[a] == Without(s.adj[a], b)
    ensures s.WithoutStreet(a, b).adj[b] == Without(s.adj[b], a)
    ensures forall z :: z in s.adj && z != a && z != b ==> s.WithoutStreet(a, b).adj[z] == s.adj[z]
  {
    if a == b {
      WithoutIdempotent(s.adj[a], a);
    }
  }

  // ----- walks -----

  /**
   * A set of zones that holds the first zone of a walk and every zone a
   * zone of the set links to holds the whole walk.
   */
  lemma {:induction false} WalkStaysIn(s: Store, v: set<Zone>, p: seq<Zone>, n: nat)
    requires s.Walk(p) && n < |p|
    requires p[0] in v
    requires forall u :: u in v && u in s.adj ==> Targets(s.adj[u]) <= v
    ensures p[n] in v
  {
    if n > 0 {
      WalkStaysIn(s, v, p, n - 1);
      assert s.Linked(p[n - 1], p[n]);
    }
  }

  /** A non-empty prefix of a walk is a walk. */
  lemma WalkPrefix(s: Store, p: seq<Zone>, n: nat)
    requires s.Walk(p) && 0 < n <= |p|
    ensures s.Walk(p[..n]) && p[..n][0] == p[0] && p[..n][n - 1] == p[n - 1]
  {
    var q := p[..n];
    forall i | 0 <= i < n - 1 ensures s.Linked(q[i], q[i + 1]) {
      assert q[i] == p[i] && q[i + 1] == p[i + 1];
    }
  }

  /** A walk extended by one stored link is a walk. */
  lemma WalkExtend(s: Store, p: seq<Zone>, z: Zone)
    requires s.Walk(p) && s.Linked(p[|p| - 1], z)
    ensures s.Walk(p + [z])
  {
    var q := p + [z];
    forall i | 0 <= i < |q| - 1 ensures s.Linked(q[i], q[i + 1]) {
      if i < |p| - 1 { assert q[i] == p[i] && q[i + 1] == p[i + 1]; }
    }
  }

  /** Every walk from a zone of a link-closed set ends in the set. */
  lemma ClosedSetHoldsWalks(s: Store, v: set<Zone>, a: Zone)
    requires a in v
    requires forall u :: u in v && u in s.adj ==> Targets(s.adj[u]) <= v
    ensures forall p :: s.Walk(p) && p[0] == a ==> p[|p| - 1] in v
  {
    forall p | s.Walk(p) && p[0] == a ensures p[|p| - 1] in v {
      WalkStaysIn(s, v, p, |p| - 1);
    }
  }

  /** In a closed store every zone a list leads to is a zone. */
  lemma ClosedTargets(s: Store, a: Zone)
    requires s.Closed() && a in s.adj
    ensures Targets(s.adj[a]) <= s.adj.Keys
  {
  }
}
