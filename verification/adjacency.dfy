/** The neighbour index built after edges are resolved (`on_svg_loaded`,
    lines 114-119): for every edge, in order, each endpoint gets a list (if it
    has none yet) and the other endpoint is pushed onto it unless the list
    already holds it. Lists are never sorted. */
module Adjacency {
  import opened Seqs

  /** An edge seen through the ids of its endpoints: (source id, target id). */
  type Link = (string, string)

  /** The `neighbors` object: node id to the ids of its neighbours. */
  type Index = map<string, seq<string>>

  /** Lines 115-118 for one edge. */
  function AddLink(m: Index, l: Link): (r: Index)
    ensures r.Keys == m.Keys + {l.0, l.1}
  {
    var (s, t) := l;
    var m1 := if s in m then m else m[s := []];
    var m2 := if t in m1 then m1 else m1[t := []];
    var m3 := if t in m2[s] then m2 else m2[s := m2[s] + [t]];
    if s in m3[t] then m3 else m3[t := m3[t] + [s]]
  }

  /** Lines 114-119: the index after every edge has been added in order. */
  function Neighbours(links: seq<Link>): (m: Index)
  {
    if |links| == 0 then map[]
    else AddLink(Neighbours(links[..|links| - 1]), links[|links| - 1])
  }

  /** The ids that `l` puts on `u`'s list, in the order lines 117 and 118 push
      them: the target when `u` is the source, then the source when `u` is the
      target. A self-loop offers `u` twice. */
  function Offered(u: string, l: Link): (xs: seq<string>)
    ensures forall v :: v in xs <==> l == (u, v) || l == (v, u)
  {
    (if l.0 == u then [l.1] else []) + (if l.1 == u then [l.0] else [])
  }

  /** Every id offered to `u` along `links`, edge by edge, repeats included. */
  function Met(u: string, links: seq<Link>): (ms: seq<string>)
  {
    if |links| == 0 then [] else Met(u, links[..|links| - 1]) + Offered(u, links[|links| - 1])
  }

  /** `u` is an endpoint of some link. */
  ghost predicate Incident(u: string, links: seq<Link>)
  {
    exists i :: 0 <= i < |links| && (links[i].0 == u || links[i].1 == u)
  }

  /** Some link joins `u` and `v`, in either direction. */
  ghost predicate Linked(u: string, v: string, links: seq<Link>)
  {
    exists i :: 0 <= i < |links| && (links[i] == (u, v) || links[i] == (v, u))
  }

  /** The reference meaning of the index: exactly the incident ids have an
      entry, and each entry lists the ids met, repeats dropped. */
  ghost predicate Describes(m: Index, links: seq<Link>)
  {
    && (forall u :: u in m <==> Incident(u, links))
    && (forall u :: u in m ==> m[u] == Dedup(Met(u, links)))
  }

  lemma MetOfPrefix(u: string, links: seq<Link>, l: Link)
    ensures Met(u, links + [l]) == Met(u, links) + Offered(u, l)
  {
    assert (links + [l])[..|links|] == links;
  }

  /** An id that no link touches meets nothing. */
  lemma {:induction false} NotIncidentMeetsNothing(u: string, links: seq<Link>)
    requires !Incident(u, links)
    ensures Met(u, links) == []
  {
    if |links| > 0 {
      var prefix := links[..|links| - 1];
      assert forall i :: 0 <= i < |prefix| ==> prefix[i] == links[i];
      NotIncidentMeetsNothing(u, prefix);
    }
  }

  /** Line 117 or 118 on one list: `x` is pushed unless the list holds it. */
  function Push(list: seq<string>, x: string): (r: seq<string>)
    ensures x in r
  {
    if x in list then list else list + [x]
  }

  /** Each id of `xs` pushed in turn. */
  function PushAll(list: seq<string>, xs: seq<string>): (r: seq<string>)
    decreases |xs|
  {
    if |xs| == 0 then list else PushAll(Push(list, xs[0]), xs[1..])
  }

  /** The list of `u` in `m`, the empty one when `u` has no entry yet. */
  function ListOf(m: Index, u: string): (list: seq<string>)
  {
    if u in m then m[u] else []
  }

  /** What one edge does to one list: the ids it offers are pushed in turn,
      everything else in the index is left alone. */
  lemma AddLinkEntry(m: Index, l: Link, u: string)
    ensures u in AddLink(m, l) ==> AddLink(m, l)[u] == PushAll(ListOf(m, u), Offered(u, l))
  {
    var (s, t) := l;
    if u == s && u == t {
      assert Offered(u, l) == [u, u];
      var once := Push(ListOf(m, u), u);
      assert PushAll(ListOf(m, u), [u, u]) == PushAll(once, [u]);
      assert [u][1..] == [];
      assert PushAll(once, [u]) == Push(once, u) == once;
    } else if u == s {
      assert Offered(u, l) == [t];
    } else if u == t {
      assert Offered(u, l) == [s];
    } else {
      assert Offered(u, l) == [];
    }
  }

  /** Dropping repeats commutes with pushing: pushing onto the deduplicated
      list is deduplicating the longer sequence. */
  lemma {:induction false} DedupPushAll(x: seq<string>, xs: seq<string>)
    ensures Dedup(x + xs) == PushAll(Dedup(x), xs)
    decreases |xs|
  {
    if |xs| > 0 {
      var y := xs[0];
      var x' := x + [y];
      calc {
        PushAll(Dedup(x), xs);
        PushAll(Push(Dedup(x), y), xs[1..]);
        { DedupAppend(x, y); }
        PushAll(Dedup(x'), xs[1..]);
        { DedupPushAll(x', xs[1..]); }
        Dedup(x' + xs[1..]);
        { assert x' + xs[1..] == x + xs; }
        Dedup(x + xs);
      }
    } else {
      assert x + xs == x;
    }
  }

  lemma AddLinkKeys(m: Index, links: seq<Link>, l: Link)
    requires forall u :: u in m <==> Incident(u, links)
    ensures forall u :: u in AddLink(m, l) <==> Incident(u, links + [l])
  {
    var all := links + [l];
    assert forall i :: 0 <= i < |links| ==> all[i] == links[i];
    assert all[|links|] == l;
  }

  /** Adding one link keeps `Describes`. */
  lemma AddLinkStep(m: Index, links: seq<Link>, l: Link)
    requires Describes(m, links)
    ensures Describes(AddLink(m, l), links + [l])
  {
    AddLinkKeys(m, links, l);
    forall u | u in AddLink(m, l)
      ensures AddLink(m, l)[u] == Dedup(Met(u, links + [l]))
    {
      MetOfPrefix(u, links, l);
      if u !in m {
        NotIncidentMeetsNothing(u, links);
      }
      assert ListOf(m, u) == Dedup(Met(u, links));
      AddLinkEntry(m, l, u);
      DedupPushAll(Met(u, links), Offered(u, l));
    }
  }

  /** The index built by lines 114-119 is the reference index: exactly the
      nodes with an incident edge have an entry, and each entry lists the ids
      met along the edges, in order of first appearance, without repeats. */
  lemma {:induction false} NeighboursDescribed(links: seq<Link>)
    ensures Describes(Neighbours(links), links)
  {
    if |links| > 0 {
      var prefix := links[..|links| - 1];
      var l := links[|links| - 1];
      assert links == prefix + [l];
      NeighboursDescribed(prefix);
      AddLinkStep(Neighbours(prefix), prefix, l);
    }
  }

  /** An id is met by `u` exactly when some link joins the two. */
  lemma {:induction false} MetIffLinked(u: string, v: string, links: seq<Link>)
    ensures v in Met(u, links) <==> Linked(u, v, links)
  {
    if |links| > 0 {
      var prefix := links[..|links| - 1];
      var l := links[|links| - 1];
      MetIffLinked(u, v, prefix);
      assert links == prefix + [l];
      assert forall i :: 0 <= i < |prefix| ==> prefix[i] == links[i];
    }
  }

  /** The index is symmetric and exact: `v` is on `u`'s list iff an edge joins
      them in either direction, and then `u` is on `v`'s list too. */
  lemma NeighboursSymmetric(links: seq<Link>, u: string, v: string)
    ensures u in Neighbours(links) && v in Neighbours(links)[u] <==> Linked(u, v, links)
    ensures Linked(u, v, links) ==> v in Neighbours(links) && u in Neighbours(links)[v]
  {
    NeighboursDescribed(links);
    MetIffLinked(u, v, links);
    MetIffLinked(v, u, links);
    if Linked(u, v, links) {
      var i :| 0 <= i < |links| && (links[i] == (u, v) || links[i] == (v, u));
      assert Incident(u, links) && Incident(v, links);
      assert Linked(v, u, links);
    }
  }

  /** Every list is free of repeats and keeps the order in which its ids first
      appear along the edges. */
  lemma NeighbourListShape(links: seq<Link>, u: string)
    requires u in Neighbours(links)
    ensures NoDuplicates(Neighbours(links)[u])
    ensures var ns := Neighbours(links)[u];
      forall i, j :: 0 <= i < j < |ns| ==>
        ns[i] in Met(u, links) && ns[j] in Met(u, links) &&
        FirstIndex(Met(u, links), ns[i]) < FirstIndex(Met(u, links), ns[j])
  {
    NeighboursDescribed(links);
    DedupKeepsFirstOccurrenceOrder(Met(u, links));
  }

  /** A node with no incident edge has no entry at all. */
  lemma IsolatedHasNoEntry(links: seq<Link>, u: string)
    ensures u in Neighbours(links) <==> Incident(u, links)
  {
    NeighboursDescribed(links);
  }

  /** A parallel edge (the same two ids again, either way round) adds nothing. */
  lemma ParallelLinkAddsNothing(links: seq<Link>, l: Link)
    requires Linked(l.0, l.1, links)
    ensures Neighbours(links + [l]) == Neighbours(links)
  {
    NeighboursSymmetric(links, l.0, l.1);
    assert (links + [l])[..|links|] == links;
  }

  /** A self-loop lists its node once in its own list. */
  lemma SelfLoopListedOnce(links: seq<Link>, u: string)
    requires (u, u) in links
    ensures u in Neighbours(links) && u in Neighbours(links)[u]
    ensures multiset(Neighbours(links)[u])[u] == 1
  {
    var i :| 0 <= i < |links| && links[i] == (u, u);
    NeighboursSymmetric(links, u, u);
    NeighbourListShape(links, u);
    OnceInNoDuplicates(Neighbours(links)[u], u);
  }

  lemma {:induction false} OnceInNoDuplicates(s: seq<string>, x: string)
    requires NoDuplicates(s) && x in s
    ensures multiset(s)[x] == 1
  {
    var k := FirstIndex(s, x);
    if k == 0 {
      assert s == [x] + s[1..];
      assert x !in s[1..];
    } else {
      assert s == [s[0]] + s[1..];
      OnceInNoDuplicates(s[1..], x);
    }
  }
}
