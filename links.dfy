/**
 * Zones and the directed adjacency records stored under them.
 * A zone ("barrio") is a non-empty string, so that the truthiness test
 * of the Dijkstra reconstruction loop stops only on a missing predecessor.
 */
module Links {

  type Zone = s: string | |s| > 0 witness "z"

  /** No zone occurs twice. */
  predicate Distinct(zs: seq<Zone>)
  {
    forall i, j :: 0 <= i < j < |zs| ==> zs[i] != zs[j]
  }

  /** One adjacency record `{nodo, peso}`: the zone the street leads to and its weight. */
  datatype Link = Link(to: Zone, weight: nat)

  /** How many copies of `l` a list holds (parallel streets are separate copies). */
  function Count(links: seq<Link>, l: Link): nat
  {
    multiset(links)[l]
  }

  /** The zones a list of links leads to. */
  function Targets(links: seq<Link>): set<Zone>
  {
    set l | l in links :: l.to
  }

  /** `links.some(v => v.nodo === b)`, scanning the list from its head. */
  function LeadsTo(links: seq<Link>, b: Zone): (r: bool)
    ensures r <==> b in Targets(links)
  {
    if links == [] then false
    else links[0].to == b || LeadsTo(links[1..], b)
  }

  /** `links.filter(v => v.nodo !== z)`: the links not leading to `z`, in their order. */
  function Without(links: seq<Link>, z: Zone): (r: seq<Link>)
    ensures |r| <= |links|
    ensures forall l :: l in r ==> l in links && l.to != z
  {
    if links == [] then []
    else if links[0].to == z then Without(links[1..], z)
    else [links[0]] + Without(links[1..], z)
  }

  /** The filter distributes over concatenation: it keeps the relative order of what it keeps. */
  lemma {:induction false} WithoutAppend(a: seq<Link>, b: seq<Link>, z: Zone)
    ensures Without(a + b, z) == Without(a, z) + Without(b, z)
  {
    if a == [] {
      assert a + b == b;
    } else {
      assert (a + b)[0] == a[0];
      assert (a + b)[1..] == a[1..] + b;
      WithoutAppend(a[1..], b, z);
    }
  }

  /** Every link not leading to `z` keeps all its copies; the links to `z` lose all of theirs. */
  lemma {:induction false} WithoutCount(links: seq<Link>, z: Zone, l: Link)
    ensures Count(Without(links, z), l) == if l.to == z then 0 else Count(links, l)
  {
    if links != [] {
      assert links == [links[0]] + links[1..];
      WithoutCount(links[1..], z, l);
    }
  }

  /** A list with no link to `z` passes the filter unchanged. */
  lemma {:induction false} WithoutNothing(links: seq<Link>, z: Zone)
    requires z !in Targets(links)
    ensures Without(links, z) == links
  {
    if links != [] {
      assert links[0] in links;
      assert Targets(links[1..]) <= Targets(links) by {
        forall l | l in links[1..] ensures l in links { }
      }
      WithoutNothing(links[1..], z);
      assert links == [links[0]] + links[1..];
    }
  }

  /** Filtering twice by the same zone is filtering once. */
  lemma WithoutIdempotent(links: seq<Link>, z: Zone)
    ensures Without(Without(links, z), z) == Without(links, z)
  {
    WithoutNothing(Without(links, z), z);
  }
}
