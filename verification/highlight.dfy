/** `highlight_node` (lines 280-316): the node card and the CSS classes for a
    highlight target, which is a node position or nothing.

    `CardFor` and `Classify` are what the function is evidently meant to
    produce. `HighlightAsWritten` is what the page does to the elements it
    touches, including the two places where that differs: line 313 throws for
    a target without an entry in `neighbors`, and the `--` written by line 297
    is never removed by line 292. */
module Highlight {
  import opened Wrappers
  import opened Seqs
  import Adjacency
  import Graph
  import Layout

  /** The fallback header of lines 287 and 302. */
  const Unnamed: string := "UNNAMED NODE"

  /** The text shown for a node: its label, or the fallback when the label is
      missing or empty (lines 286-290, 301-305). */
  function DisplayLabel(caption: Option<string>): (s: string)
    ensures |s| > 0
    ensures caption.Some? && caption.value != "" ==> s == caption.value
    ensures caption.None? || caption.value == "" ==> s == Unnamed
  {
    match caption
    case None => Unnamed
    case Some(text) => if |text| == 0 then Unnamed else text
  }

  function Digit(d: nat): (c: char)
    requires d < 10
    ensures '0' <= c <= '9'
  {
    (('0' as int) + d) as char
  }

  predicate AllDigits(s: string)
  {
    forall k :: 0 <= k < |s| ==> '0' <= s[k] <= '9'
  }

  /** A template literal's rendering of a count: decimal, no leading zero. */
  function Decimal(n: nat): (s: string)
    ensures |s| > 0 && AllDigits(s)
    ensures s[0] == '0' ==> n == 0
    decreases n
  {
    if n < 10 then [Digit(n)] else Decimal(n / 10) + [Digit(n % 10)]
  }

  /** The number a string of decimal digits denotes. */
  function DigitsValue(s: string): (v: nat)
    requires AllDigits(s)
  {
    if |s| == 0 then 0
    else 10 * DigitsValue(s[..|s| - 1]) + ((s[|s| - 1] as int) - ('0' as int))
  }

  /** Reading the digits back gives the count that was written. */
  lemma {:induction false} DecimalRoundTrip(n: nat)
    ensures DigitsValue(Decimal(n)) == n
    decreases n
  {
    if n >= 10 {
      DecimalRoundTrip(n / 10);
      var s := Decimal(n);
      assert s[..|s| - 1] == Decimal(n / 10);
    }
  }

  /** The sub-header of line 299. */
  function CountText(k: nat): (s: string)
  {
    "Neighbors (" + Decimal(k) + ")"
  }

  /** The sub-header names exactly the count it was given: the digits between
      the parentheses read back as `k`. */
  lemma CountTextReadsBack(k: nat)
    ensures var s := CountText(k);
      && |s| > 12 && s[..11] == "Neighbors (" && s[|s| - 1] == ')'
      && AllDigits(s[11..|s| - 1]) && DigitsValue(s[11..|s| - 1]) == k
  {
    var s := CountText(k);
    assert s[11..|s| - 1] == Decimal(k);
    DecimalRoundTrip(k);
  }

  /** What the card's description holds. */
  datatype Body = Placeholder | Listing(labels: seq<string>)

  /** The node card: hidden, or shown with a header, a sub-header and a body. */
  datatype Card = Hidden | Shown(header: string, subHeader: string, body: Body)

  /** `target` is nothing or a node of `g`. */
  predicate ValidTarget(g: Graph.Graph, target: Option<nat>)
  {
    target.Some? ==> target.value < |g.nodes|
  }

  /** The display labels of listed neighbour ids, each looked up in the id
      table (line 301). */
  function LabelsOf(g: Graph.Graph, ids: seq<string>): (ls: seq<string>)
    requires forall v :: v in ids ==> v in g.table && g.table[v] < |g.nodes|
    ensures |ls| == |ids|
    ensures forall k :: 0 <= k < |ids| ==> ls[k] == DisplayLabel(g.nodes[g.table[ids[k]]].caption)
  {
    seq(|ids|, k requires 0 <= k < |ids| => DisplayLabel(g.nodes[g.table[ids[k]]].caption))
  }

  /** The card for a target (lines 282-307): shown exactly for a target,
      headed by the target's label, with the placeholder exactly when the
      target's id has no `neighbors` entry. */
  function CardFor(g: Graph.Graph, target: Option<nat>): (c: Card)
    requires Graph.Indexed(g) && ValidTarget(g, target)
    ensures c.Hidden? <==> target.None?
    ensures target.Some? ==> c.header == DisplayLabel(g.nodes[target.value].caption)
    ensures target.Some? ==> (c.body.Placeholder? <==> g.nodes[target.value].id !in g.neighbours)
  {
    if target.None? then Hidden
    else
      var n := g.nodes[target.value];
      if n.id !in g.neighbours then Shown(DisplayLabel(n.caption), "Neighbors", Placeholder)
      else
        var ns := g.neighbours[n.id];
        Graph.ListedIdsAreKnown(g, n.id);
        Shown(DisplayLabel(n.caption), CountText(|ns|), Listing(LabelsOf(g, ns)))
  }

  /** The ids of `g`'s edges, in edge order. */
  function LinksOf(g: Graph.Graph): (ls: seq<Adjacency.Link>)
    requires Graph.Indexed(g)
  {
    Graph.Links(g.nodes, g.edges)
  }

  /** The placeholder (`Neighbors` over `--`) appears exactly when no edge
      touches the target's id. */
  lemma PlaceholderIffUntouched(g: Graph.Graph, t: nat)
    requires Graph.Indexed(g) && t < |g.nodes|
    ensures CardFor(g, Some(t)).body.Placeholder? <==> !Adjacency.Incident(g.nodes[t].id, LinksOf(g))
    ensures CardFor(g, Some(t)).body.Placeholder? ==> CardFor(g, Some(t)).subHeader == "Neighbors"
  {
    Adjacency.IsolatedHasNoEntry(LinksOf(g), g.nodes[t].id);
  }

  /** Otherwise the count is the number of distinct ids met along the edges,
      and the labels are those of the nodes with those ids, in the order the
      ids first appear. */
  lemma ListingShowsMetIds(g: Graph.Graph, t: nat)
    requires Graph.Indexed(g) && t < |g.nodes|
    ensures var card := CardFor(g, Some(t));
      var met := Dedup(Adjacency.Met(g.nodes[t].id, LinksOf(g)));
      card.body.Listing? ==>
        && card.subHeader == CountText(|met|)
        && |card.body.labels| == |met|
        && forall k :: 0 <= k < |met| ==>
             met[k] in g.table && g.nodes[g.table[met[k]]].id == met[k] &&
             card.body.labels[k] == DisplayLabel(g.nodes[g.table[met[k]]].caption)
  {
    var u := g.nodes[t].id;
    if u in g.neighbours {
      Adjacency.NeighboursDescribed(LinksOf(g));
      assert g.neighbours[u] == Dedup(Adjacency.Met(u, LinksOf(g)));
      Graph.ListedIdsAreKnown(g, u);
    }
  }

  /** The classes of lines 311, 313 and 315: per node `active` and `neighbor`,
      per edge `active`. */
  datatype Classes = Classes(active: seq<bool>, neighbour: seq<bool>, edgeActive: seq<bool>)

  /** The classes for a target, a missing `neighbors` entry read as an empty
      list. */
  function Classify(g: Graph.Graph, target: Option<nat>): (c: Classes)
    requires Graph.Indexed(g) && ValidTarget(g, target)
    ensures |c.active| == |g.nodes| && |c.neighbour| == |g.nodes| && |c.edgeActive| == |g.edges|
  {
    var ns := if target.Some? && g.nodes[target.value].id in g.neighbours then g.neighbours[g.nodes[target.value].id] else [];
    Classes(
      seq(|g.nodes|, i requires 0 <= i < |g.nodes| => target == Some(i)),
      seq(|g.nodes|, i requires 0 <= i < |g.nodes| => target.Some? && g.nodes[i].id in ns),
      seq(|g.edges|, k requires 0 <= k < |g.edges| => target == Some(g.edges[k].source) || target == Some(g.edges[k].target)))
  }

  /** With no target nothing is marked; a node is active exactly when it is
      the target; an edge is active exactly when one of its ends is the
      target node. */
  lemma ClassifyMarksTarget(g: Graph.Graph, target: Option<nat>)
    requires Graph.Indexed(g) && ValidTarget(g, target)
    ensures var c := Classify(g, target);
      && (target.None? ==>
            (forall i :: 0 <= i < |g.nodes| ==> !c.active[i] && !c.neighbour[i])
            && (forall k :: 0 <= k < |g.edges| ==> !c.edgeActive[k]))
      && (forall i :: 0 <= i < |g.nodes| ==> (c.active[i] <==> target == Some(i)))
      && (forall k :: 0 <= k < |g.edges| ==>
            (c.edgeActive[k] <==> target == Some(g.edges[k].source) || target == Some(g.edges[k].target)))
  {
  }

  /** A node is marked as a neighbour exactly when some edge joins the
      target's id and the node's id, in either direction. */
  lemma ClassifyNeighboursAreLinked(g: Graph.Graph, t: nat, i: nat)
    requires Graph.Indexed(g) && t < |g.nodes| && i < |g.nodes|
    ensures Classify(g, Some(t)).neighbour[i] <==> Adjacency.Linked(g.nodes[t].id, g.nodes[i].id, LinksOf(g))
  {
    Adjacency.NeighboursSymmetric(LinksOf(g), g.nodes[t].id, g.nodes[i].id);
  }

  /** Both ends of an active edge are marked as neighbours: the other end
      because the edge joins it to the target, the target's own end exactly
      when the target has a self-loop or a twin with its id at that end. */
  lemma ActiveEdgeEndsAreNeighbours(g: Graph.Graph, t: nat, k: nat)
    requires Graph.Indexed(g) && t < |g.nodes| && k < |g.edges|
    requires Classify(g, Some(t)).edgeActive[k]
    ensures Classify(g, Some(t)).neighbour[g.edges[k].source] || g.edges[k].source == t
    ensures Classify(g, Some(t)).neighbour[g.edges[k].target] || g.edges[k].target == t
  {
    var u := g.nodes[t].id;
    var (s, d) := (g.edges[k].source, g.edges[k].target);
    assert LinksOf(g)[k] == (g.nodes[s].id, g.nodes[d].id);
    if s == t {
      assert Adjacency.Linked(u, g.nodes[d].id, LinksOf(g));
      ClassifyNeighboursAreLinked(g, t, d);
    } else {
      assert Adjacency.Linked(u, g.nodes[s].id, LinksOf(g));
      ClassifyNeighboursAreLinked(g, t, s);
    }
  }

  /** The card element as the page leaves it. */
  datatype Fragment = Text(text: string) | Para(text: string)
  datatype CardDom = CardDom(visible: bool, header: string, subHeader: string, description: seq<Fragment>)

  /** What the page shows: the card element and the classes. */
  datatype View = View(card: CardDom, classes: Classes)

  /** The view after `highlight_node`, and whether it threw part-way. */
  datatype Outcome = Outcome(view: View, threw: bool)

  /** Line 292: the description without its `<p>` children. A lone text
      fragment is kept and a lone paragraph is dropped; `WithoutParasAppend`
      adds that the kept fragments stay in order. */
  function WithoutParas(fs: seq<Fragment>): (r: seq<Fragment>)
    ensures forall f :: f in r <==> f in fs && f.Text?
    ensures |r| <= |fs|
    ensures |fs| == 1 ==> r == (if fs[0].Text? then fs else [])
  {
    if |fs| == 0 then []
    else if fs[0].Para? then WithoutParas(fs[1..])
    else [fs[0]] + WithoutParas(fs[1..])
  }

  /** The removal works fragment by fragment: the kept fragments of two
      consecutive runs are kept in the same order. */
  lemma {:induction false} WithoutParasAppend(a: seq<Fragment>, b: seq<Fragment>)
    ensures WithoutParas(a + b) == WithoutParas(a) + WithoutParas(b)
    decreases |a|
  {
    if |a| == 0 {
      assert a + b == b;
    } else {
      assert (a + b)[0] == a[0];
      assert (a + b)[1..] == a[1..] + b;
      WithoutParasAppend(a[1..], b);
    }
  }

  lemma {:induction false} OnlyParasLeaveNothing(fs: seq<Fragment>)
    requires forall f :: f in fs ==> f.Para?
    ensures WithoutParas(fs) == []
  {
    if |fs| > 0 {
      assert fs[0] in fs;
      assert forall f :: f in fs[1..] ==> f in fs;
      OnlyParasLeaveNothing(fs[1..]);
    }
  }

  function Paras(labels: seq<string>): (fs: seq<Fragment>)
    ensures |fs| == |labels| && forall k :: 0 <= k < |labels| ==> fs[k] == Para(labels[k])
  {
    seq(|labels|, k requires 0 <= k < |labels| => Para(labels[k]))
  }

  /** Lines 282-307 as written: the card element updated in place. Without a
      target only the visibility changes. With one, the header and sub-header
      are the corrected card's; the description is `--` alone when the target
      has no `neighbors` entry (line 297 replaces all children), and otherwise
      the text fragments that line 292 kept, in order, followed by the
      corrected listing. */
  function CardAsWritten(g: Graph.Graph, before: CardDom, target: Option<nat>): (d: CardDom)
    requires Graph.Indexed(g) && ValidTarget(g, target)
    ensures d.visible <==> target.Some?
    ensures target.None? ==> d == before.(visible := false)
    ensures target.Some? ==> d.header == CardFor(g, target).header && d.subHeader == CardFor(g, target).subHeader
    ensures target.Some? && g.nodes[target.value].id !in g.neighbours ==> d.description == [Text("--")]
    ensures target.Some? && g.nodes[target.value].id in g.neighbours ==>
      d.description == WithoutParas(before.description) + RenderCard(CardFor(g, target), before).description
  {
    if target.None? then before.(visible := false)
    else
      var n := g.nodes[target.value];
      if n.id !in g.neighbours then CardDom(true, DisplayLabel(n.caption), "Neighbors", [Text("--")])
      else
        var ns := g.neighbours[n.id];
        Graph.ListedIdsAreKnown(g, n.id);
        CardDom(true, DisplayLabel(n.caption), CountText(|ns|),
          WithoutParas(before.description) + Paras(LabelsOf(g, ns)))
  }

  /** `highlight_node` as written, applied to the view it finds: the card is
      updated in place, then the classes are set in turn; for a target without
      a `neighbors` entry line 313 throws on the first node, so the
      `neighbor` classes and the edge classes keep their previous values. */
  function HighlightAsWritten(g: Graph.Graph, v: View, target: Option<nat>): (o: Outcome)
    requires Graph.Indexed(g) && ValidTarget(g, target)
    ensures o.threw <==> target.Some? && g.nodes[target.value].id !in g.neighbours
    ensures o.view.card.visible <==> target.Some?
    ensures o.view.classes.active == Classify(g, target).active
  {
    var card := CardAsWritten(g, v.card, target);
    var c := Classify(g, target);
    if target.Some? && g.nodes[target.value].id !in g.neighbours then
      Outcome(View(card, Classes(c.active, v.classes.neighbour, v.classes.edgeActive)), true)
    else
      Outcome(View(card, c), false)
  }

  /** The card element for a card built from scratch: hidden leaves the text
      alone, the placeholder is the text `--`, a listing is one paragraph per
      label. */
  function RenderCard(card: Card, before: CardDom): (d: CardDom)
    ensures d.visible <==> card.Shown?
  {
    match card
    case Hidden => before.(visible := false)
    case Shown(header, subHeader, Placeholder) => CardDom(true, header, subHeader, [Text("--")])
    case Shown(header, subHeader, Listing(labels)) => CardDom(true, header, subHeader, Paras(labels))
  }

  /** Where a target has an entry, or there is no target, the page does what
      the corrected definitions say: nothing is thrown, the classes are
      `Classify`'s, and the card is `CardFor`'s as long as no stray text sits
      in the description. */
  lemma AsWrittenAgreesWithEntry(g: Graph.Graph, v: View, target: Option<nat>)
    requires Graph.Indexed(g) && ValidTarget(g, target)
    requires target.Some? ==> g.nodes[target.value].id in g.neighbours
    ensures var o := HighlightAsWritten(g, v, target);
      && !o.threw && o.view.classes == Classify(g, target)
      && ((forall f :: f in v.card.description ==> f.Para?) ==> o.view.card == RenderCard(CardFor(g, target), v.card))
  {
    var o := HighlightAsWritten(g, v, target);
    if target.Some? && forall f :: f in v.card.description ==> f.Para? {
      OnlyParasLeaveNothing(v.card.description);
      assert o.view.card.description == Paras(CardFor(g, target).body.labels);
    }
  }

  /** A card built from scratch shows the same text whatever the card showed
      before: the placeholder alone, or exactly one paragraph per listed
      label with no other text. */
  lemma RenderedCardIsFresh(g: Graph.Graph, t: nat, before: CardDom, other: CardDom)
    requires Graph.Indexed(g) && t < |g.nodes|
    ensures var d := RenderCard(CardFor(g, Some(t)), before);
      && d == RenderCard(CardFor(g, Some(t)), other)
      && (g.nodes[t].id in g.neighbours ==>
            forall k :: 0 <= k < |d.description| ==> d.description[k].Para?)
      && (g.nodes[t].id !in g.neighbours ==> d.description == [Text("--")])
  {
  }

  /** A target whose id no edge touches: the corrected classes mark no node
      as a neighbour and no edge as active. */
  lemma IsolatedTargetMarksNothing(g: Graph.Graph, t: nat)
    requires Graph.Indexed(g) && t < |g.nodes| && g.nodes[t].id !in g.neighbours
    ensures var c := Classify(g, Some(t));
      && (forall i :: 0 <= i < |g.nodes| ==> !c.neighbour[i])
      && (forall k :: 0 <= k < |g.edges| ==> !c.edgeActive[k])
  {
    var c := Classify(g, Some(t));
    forall k | 0 <= k < |g.edges|
      ensures !c.edgeActive[k]
    {
      Graph.EdgeEndsAreNeighbours(g, k);
    }
  }

  /** As written, the same target throws and leaves the `neighbor` and edge
      classes of the previous highlight in place. */
  lemma IsolatedTargetKeepsStaleClasses(g: Graph.Graph, v: View, t: nat)
    requires Graph.Indexed(g) && t < |g.nodes| && g.nodes[t].id !in g.neighbours
    ensures var o := HighlightAsWritten(g, v, Some(t));
      && o.threw
      && o.view.classes.neighbour == v.classes.neighbour
      && o.view.classes.edgeActive == v.classes.edgeActive
  {
  }

  /** As written, text outside paragraphs survives any later highlight. */
  lemma TextSurvivesListing(g: Graph.Graph, v: View, t: nat, f: Fragment)
    requires Graph.Indexed(g) && t < |g.nodes| && g.nodes[t].id in g.neighbours
    requires f in v.card.description && f.Text?
    ensures f in HighlightAsWritten(g, v, Some(t)).view.card.description
  {
    var o := HighlightAsWritten(g, v, Some(t));
    assert f in WithoutParas(v.card.description);
  }

  /** A small network: `a` ("Ann") at the origin and `b` at (1, 0), joined
      by one edge, and `c` ("Cat") at (0, 1) with no edge. */
  function Example(): (g: Graph.Graph)
    ensures Graph.Indexed(g)
  {
    var nodes := [
      Graph.Node("a", 0.0, 0.0, Some("Ann")),
      Graph.Node("b", 1.0, 0.0, None),
      Graph.Node("c", 0.0, 1.0, Some("Cat"))];
    var edges := [Graph.Edge(0, 1)];
    assert nodes[..2][..1] == nodes[..1];
    Graph.Graph(nodes, ExampleLayout(), Graph.IdTable(nodes), edges, Adjacency.Neighbours(Graph.Links(nodes, edges)))
  }

  /** The example's coordinates after lines 87-105: flipped, the box runs from
      (0, -1) to (1, 0), the scale is 1024, and `c` lands at the origin. */
  function ExampleLayout(): (l: Layout.Layout)
    ensures l.Placed? && |l.points| == 3
  {
    Layout.Placed(Layout.Box(0.0, -1.0, 1.0, 0.0), 1024.0,
      [Layout.Point(0.0, 1024.0), Layout.Point(1024.0, 1024.0), Layout.Point(0.0, 0.0)])
  }

  /** The example is a loaded network: its layout is the one lines 87-105
      compute from its nodes. */
  lemma ExampleIsWellFormed()
    ensures Graph.WellFormed(Example())
  {
    var g := Example();
    var raw := [Layout.Point(0.0, 0.0), Layout.Point(1.0, 0.0), Layout.Point(0.0, 1.0)];
    assert Graph.Positions(g.nodes) == raw;
    assert g.layout == ExampleLayout();
    ExampleLayoutIsNormalised(raw);
    WellFormedOf(g, raw);
  }

  lemma WellFormedOf(g: Graph.Graph, raw: seq<Layout.Point>)
    requires Graph.Indexed(g) && Graph.Positions(g.nodes) == raw && Layout.NormalisedFrom(g.layout, raw)
    ensures Graph.WellFormed(g)
  {
  }

  lemma ExampleLayoutIsNormalised(raw: seq<Layout.Point>)
    requires raw == [Layout.Point(0.0, 0.0), Layout.Point(1.0, 0.0), Layout.Point(0.0, 1.0)]
    ensures Layout.NormalisedFrom(ExampleLayout(), raw)
  {
    var fs := Layout.FlipAll(raw);
    var b := ExampleLayout().box;
    ExampleFlipped(raw);
    ExampleBox(fs, b);
    ExampleScale(b);
    ExamplePlaced(fs, b);
  }

  /** Line 93 on the example: `c` moves below the axis. */
  lemma ExampleFlipped(raw: seq<Layout.Point>)
    requires raw == [Layout.Point(0.0, 0.0), Layout.Point(1.0, 0.0), Layout.Point(0.0, 1.0)]
    ensures Layout.FlipAll(raw) == [Layout.Point(0.0, 0.0), Layout.Point(1.0, 0.0), Layout.Point(0.0, -1.0)]
  {
  }

  /** Lines 88-98 on the example: `b` reaches the right side and `c` the
      bottom; the other two sides stay at the origin. */
  lemma ExampleBox(fs: seq<Layout.Point>, b: Layout.Box)
    requires fs == [Layout.Point(0.0, 0.0), Layout.Point(1.0, 0.0), Layout.Point(0.0, -1.0)]
    requires b == Layout.Box(0.0, -1.0, 1.0, 0.0)
    ensures Layout.Encloses(b, fs) && Layout.Tight(b, fs)
  {
    assert fs[1].x == b.maxX && fs[2].y == b.minY;
  }

  lemma ExampleScale(b: Layout.Box)
    requires b == Layout.Box(0.0, -1.0, 1.0, 0.0)
    ensures Layout.ScaleFor(3, b) == Layout.Finite(1024.0)
  {
  }

  lemma ExamplePlaced(fs: seq<Layout.Point>, b: Layout.Box)
    requires fs == [Layout.Point(0.0, 0.0), Layout.Point(1.0, 0.0), Layout.Point(0.0, -1.0)]
    requires b == Layout.Box(0.0, -1.0, 1.0, 0.0)
    ensures Layout.PlaceAll(fs, b, 1024.0) == ExampleLayout().points
  {
  }

  lemma ExampleTables()
    ensures Example().neighbours == map["a" := ["b"], "b" := ["a"]]
    ensures Example().table == map["a" := 0, "b" := 1, "c" := 2]
  {
    var g := Example();
    var links := Graph.Links(g.nodes, g.edges);
    assert links == [("a", "b")];
    assert |links[..0]| == 0;
    assert Adjacency.Neighbours(links) == Adjacency.AddLink(map[], ("a", "b"));
    var m1: Adjacency.Index := map["a" := []];
    assert "b" !in m1;
    var m2 := m1["b" := []];
    assert "b" !in m2["a"];
    var m3 := m2["a" := m2["a"] + ["b"]];
    assert "a" !in m3["b"];
    assert Adjacency.AddLink(map[], ("a", "b")) == m3["b" := m3["b"] + ["a"]];
    assert [] + ["a"] == ["a"] && [] + ["b"] == ["b"];
    assert m3["b" := m3["b"] + ["a"]] == map["a" := ["b"], "b" := ["a"]];
    assert g.neighbours == Adjacency.Neighbours(links);
    assert g.nodes[..2][..1][..0] == [];
    assert Graph.IdTable(g.nodes[..2][..1]) == map["a" := 0];
    assert Graph.IdTable(g.nodes[..2]) == map["a" := 0, "b" := 1];
  }

  /** The page as it starts: card hidden and empty, no class set. */
  function Blank(g: Graph.Graph): (v: View)
  {
    View(CardDom(false, "", "", []),
      Classes(seq(|g.nodes|, i => false), seq(|g.nodes|, i => false), seq(|g.edges|, k => false)))
  }

  /** Clicking `a`, leaving it (which highlights the selection, `a`, again)
      and entering `c`: the third call throws, so `b` stays marked as a
      neighbour and the edge stays active, though `c` has no edge at all. */
  lemma IsolatedTargetExample()
    ensures var g := Example();
      var click := HighlightAsWritten(g, Blank(g), Some(0));
      var leave := HighlightAsWritten(g, click.view, Some(0));
      var enter := HighlightAsWritten(g, leave.view, Some(2));
      && enter.threw
      && enter.view.classes.neighbour[1] && enter.view.classes.edgeActive[0]
      && !Classify(g, Some(2)).neighbour[1] && !Classify(g, Some(2)).edgeActive[0]
  {
    ExampleTables();
  }

  /** Entering `c`, leaving it with nothing selected (which only hides the
      card) and entering `a`: the card lists `b`'s label under the `--` of
      the earlier placeholder, where a fresh card lists only the label. */
  lemma StalePlaceholderExample()
    ensures var g := Example();
      var enterC := HighlightAsWritten(g, Blank(g), Some(2));
      var leave := HighlightAsWritten(g, enterC.view, None);
      var enterA := HighlightAsWritten(g, leave.view, Some(0));
      && enterA.view.card.description == [Text("--"), Para(Unnamed)]
      && RenderCard(CardFor(g, Some(0)), leave.view.card).description == [Para(Unnamed)]
  {
    ExampleTables();
  }

}
