/** The pointer handlers (lines 215-241 and 252-277) as a transition system
    over the page's interaction state. The d3 force simulation that reads the
    pins is not modelled; the position a drag starts from is part of the
    event. */
module Interaction {
  import opened Wrappers
  import Layout
  import Graph
  import Highlight

  /** `selected_node`, `dragging`, the node last passed to `highlight_node`,
      and the `fx`/`fy` pins, all by node position. */
  datatype State = State(selected: Option<nat>, dragging: bool, target: Option<nat>, pins: map<nat, Layout.Point>)

  /** The events the handlers are bound to. `DragStart` carries the node's
      current position (`d.x`, `d.y`), `DragMove` the pointer position. */
  datatype Event =
    | Click(node: nat)
    | MouseOver(node: nat)
    | MouseOut(node: nat)
    | DragStart(node: nat, at: Layout.Point)
    | DragMove(node: nat, pointer: Layout.Point)
    | DragEnd(node: nat)

  /** The state once the network is drawn: nothing selected, nothing
      highlighted, no drag, no pin. */
  const Initial: State := State(None, false, None, map[])

  predicate IsPointerEvent(e: Event)
  {
    e.Click? || e.MouseOver? || e.MouseOut?
  }

  predicate IsDragEvent(e: Event)
  {
    e.DragStart? || e.DragMove? || e.DragEnd?
  }

  /** One handler run. Only a click changes the selection, only pointer
      events outside a drag change the highlight, only drag events touch the
      pins and then only the dragged node's pin. */
  function Step(s: State, e: Event): (r: State)
    ensures r.selected != s.selected ==> e.Click? && !s.dragging && r.selected == Some(e.node)
    ensures r.target != s.target ==> IsPointerEvent(e) && !s.dragging
    ensures r.pins != s.pins ==> IsDragEvent(e)
    ensures forall n :: n != e.node ==> (n in r.pins <==> n in s.pins) && (n in s.pins ==> r.pins[n] == s.pins[n])
  {
    match e
    case Click(n) => if s.dragging then s else s.(selected := Some(n), target := Some(n))
    case MouseOver(n) => if s.dragging then s else s.(target := Some(n))
    case MouseOut(_) => if s.dragging then s else s.(target := s.selected)
    case DragStart(n, at) => s.(dragging := true, pins := s.pins[n := at])
    case DragMove(n, p) => s.(pins := s.pins[n := p])
    case DragEnd(n) => s.(dragging := false, pins := s.pins - {n})
  }

  /** The events handled one after the other. */
  function Run(s: State, es: seq<Event>): (r: State)
  {
    if |es| == 0 then s else Step(Run(s, es[..|es| - 1]), es[|es| - 1])
  }

  lemma RunAppend(s: State, es: seq<Event>, more: seq<Event>)
    ensures Run(s, es + more) == Run(Run(s, es), more)
    decreases |more|
  {
    if |more| > 0 {
      assert (es + more)[..|es + more| - 1] == es + more[..|more| - 1];
      RunAppend(s, es, more[..|more| - 1]);
    } else {
      assert es + more == es;
    }
  }

  /** Only drag events move the drag flag and the pins: events without any
      leave both as they were. */
  lemma {:induction false} RunWithoutDragEvents(s: State, es: seq<Event>)
    requires forall k :: 0 <= k < |es| ==> !IsDragEvent(es[k])
    ensures Run(s, es).dragging == s.dragging && Run(s, es).pins == s.pins
  {
    if |es| > 0 {
      RunWithoutDragEvents(s, es[..|es| - 1]);
    }
  }

  /** While a drag is in progress, clicks and hovering change nothing. */
  lemma PointerEventsIgnoredWhileDragging(s: State, e: Event)
    requires s.dragging && IsPointerEvent(e)
    ensures Step(s, e) == s
  {
  }

  /** Outside a drag: a click selects and highlights the node; hovering
      highlights the node and keeps the selection; leaving a node highlights
      the selection again (nothing, when nothing is selected). None of them
      touches the pins or the drag flag. */
  lemma HoverAndClick(s: State, e: Event)
    requires !s.dragging && IsPointerEvent(e)
    ensures var r := Step(s, e);
      && r.pins == s.pins && !r.dragging
      && (e.Click? ==> r.selected == Some(e.node) && r.target == Some(e.node))
      && (e.MouseOver? ==> r.selected == s.selected && r.target == Some(e.node))
      && (e.MouseOut? ==> r.selected == s.selected && r.target == s.selected)
  {
  }

  /** A drag start pins the node where it is and starts the drag; a move
      re-pins it at the pointer; the end removes the pin and ends the drag.
      The selection and the highlight are left alone. */
  lemma DragLifecycle(s: State, e: Event)
    requires IsDragEvent(e)
    ensures var r := Step(s, e);
      && r.selected == s.selected && r.target == s.target
      && (e.DragStart? ==> r.dragging && e.node in r.pins && r.pins[e.node] == e.at)
      && (e.DragMove? ==> r.dragging == s.dragging && e.node in r.pins && r.pins[e.node] == e.pointer)
      && (e.DragEnd? ==> !r.dragging && e.node !in r.pins)
  {
  }

  /** Once a node is selected, some node stays selected: the page has no way
      to clear the selection. */
  lemma {:induction false} SelectionIsSticky(s: State, es: seq<Event>)
    requires s.selected.Some?
    ensures Run(s, es).selected.Some?
  {
    if |es| > 0 {
      SelectionIsSticky(s, es[..|es| - 1]);
    }
  }

  /** A changed selection is the node of a click handled outside a drag. */
  lemma {:induction false} SelectionComesFromClick(s: State, es: seq<Event>)
    ensures Run(s, es).selected != s.selected ==>
      exists k :: 0 <= k < |es| && es[k].Click? && !Run(s, es[..k]).dragging && Run(s, es).selected == Some(es[k].node)
  {
    if |es| > 0 {
      var prefix := es[..|es| - 1];
      var before := Run(s, prefix);
      var k := |es| - 1;
      assert es[..k] == prefix;
      if Run(s, es).selected != before.selected {
        assert es[k].Click? && !Run(s, es[..k]).dragging;
      } else if Run(s, es).selected != s.selected {
        SelectionComesFromClick(s, prefix);
        var j :| 0 <= j < |prefix| && prefix[j].Click? && !Run(s, prefix[..j]).dragging && before.selected == Some(prefix[j].node);
        assert prefix[..j] == es[..j] && es[j] == prefix[j];
      }
    }
  }

  predicate AllMovesOf(n: nat, moves: seq<Event>)
  {
    forall k :: 0 <= k < |moves| ==> moves[k].DragMove? && moves[k].node == n
  }

  /** Moves of one node only re-pin that node. */
  lemma {:induction false} MovesOnlyRepin(s: State, n: nat, moves: seq<Event>)
    requires AllMovesOf(n, moves) && n in s.pins
    ensures var r := Run(s, moves);
      && r.selected == s.selected && r.target == s.target && r.dragging == s.dragging
      && n in r.pins && r.pins - {n} == s.pins - {n}
  {
    if |moves| > 0 {
      MovesOnlyRepin(s, n, moves[..|moves| - 1]);
    }
  }

  /** A complete drag of one node, however it moves, leaves the state as it
      was except that the drag is over and the node has no pin. */
  lemma DragSessionReleases(s: State, n: nat, at: Layout.Point, moves: seq<Event>)
    requires AllMovesOf(n, moves)
    ensures Run(s, [DragStart(n, at)] + moves + [DragEnd(n)]) == s.(dragging := false, pins := s.pins - {n})
  {
    var started := Step(s, DragStart(n, at));
    assert Run(s, [DragStart(n, at)]) == started by {
      assert [DragStart(n, at)][..0] == [];
    }
    RunAppend(s, [DragStart(n, at)], moves);
    MovesOnlyRepin(started, n, moves);
    RunAppend(s, [DragStart(n, at)] + moves, [DragEnd(n)]);
    assert [DragEnd(n)][..0] == [];
  }

  /** Every node the state refers to is one of `count` nodes. */
  predicate Valid(s: State, count: nat)
  {
    && (s.selected.Some? ==> s.selected.value < count)
    && (s.target.Some? ==> s.target.value < count)
    && (forall n :: n in s.pins ==> n < count)
  }

  /** Events on drawn nodes keep the state about drawn nodes. */
  lemma StepKeepsValid(s: State, e: Event, count: nat)
    requires Valid(s, count) && e.node < count
    ensures Valid(Step(s, e), count)
  {
  }

  /** What is on screen for a state: the card and the classes of the
      highlight target. */
  function Render(g: Graph.Graph, s: State): (view: (Highlight.Card, Highlight.Classes))
    requires Graph.Indexed(g) && Valid(s, |g.nodes|)
    ensures view.0.Hidden? <==> s.target.None?
    ensures |view.1.active| == |g.nodes|
    ensures forall i :: 0 <= i < |g.nodes| ==> (view.1.active[i] <==> s.target == Some(i))
  {
    (Highlight.CardFor(g, s.target), Highlight.Classify(g, s.target))
  }

  /** Leaving a node outside a drag shows the selection: the card is shown
      exactly when something is selected, and the selected node is the only
      active one. */
  lemma MouseOutShowsSelection(g: Graph.Graph, s: State, n: nat)
    requires Graph.Indexed(g) && Valid(s, |g.nodes|) && n < |g.nodes| && !s.dragging
    ensures var r := Step(s, MouseOut(n));
      && Valid(r, |g.nodes|)
      && (Render(g, r).0.Hidden? <==> s.selected.None?)
      && forall i :: 0 <= i < |g.nodes| ==> (Render(g, r).1.active[i] <==> s.selected == Some(i))
  {
    var r := Step(s, MouseOut(n));
    Highlight.ClassifyMarksTarget(g, r.target);
  }

  /** Drag events never change what is on screen in the card or classes. */
  lemma DragEventsKeepRender(g: Graph.Graph, s: State, e: Event)
    requires Graph.Indexed(g) && Valid(s, |g.nodes|) && e.node < |g.nodes| && IsDragEvent(e)
    ensures Valid(Step(s, e), |g.nodes|) && Render(g, Step(s, e)) == Render(g, s)
  {
  }

  /** A handler as written, with its effect on the page: every pointer event
      outside a drag calls `highlight_node` on the node the handler picks (the
      clicked or entered node, or the selection on leaving); drag events and
      ignored events leave the page as it was. */
  function HandleAsWritten(g: Graph.Graph, s: State, v: Highlight.View, e: Event): (p: (State, Highlight.View))
    requires Graph.Indexed(g) && Valid(s, |g.nodes|) && e.node < |g.nodes|
    ensures p.0 == Step(s, e) && Valid(p.0, |g.nodes|)
    ensures IsDragEvent(e) || s.dragging ==> p.1 == v
    ensures IsPointerEvent(e) && !s.dragging ==> p.1 == Highlight.HighlightAsWritten(g, v, p.0.target).view
  {
    var r := Step(s, e);
    StepKeepsValid(s, e, |g.nodes|);
    if IsPointerEvent(e) && !s.dragging then (r, Highlight.HighlightAsWritten(g, v, r.target).view) else (r, v)
  }

  /** The page after a sequence of events, as written: the state is `Run`'s,
      and the view has been through every `highlight_node` call. */
  function PageAsWritten(g: Graph.Graph, s: State, v: Highlight.View, es: seq<Event>): (p: (State, Highlight.View))
    requires Graph.Indexed(g) && Valid(s, |g.nodes|)
    requires forall k :: 0 <= k < |es| ==> es[k].node < |g.nodes|
    ensures p.0 == Run(s, es) && Valid(p.0, |g.nodes|)
  {
    if |es| == 0 then (s, v)
    else
      var q := PageAsWritten(g, s, v, es[..|es| - 1]);
      HandleAsWritten(g, q.0, q.1, es[|es| - 1])
  }

  /** One more event is one more handler run. */
  lemma PageStep(g: Graph.Graph, s: State, v: Highlight.View, es: seq<Event>, e: Event)
    requires Graph.Indexed(g) && Valid(s, |g.nodes|)
    requires forall k :: 0 <= k < |es| ==> es[k].node < |g.nodes|
    requires e.node < |g.nodes|
    ensures var p := PageAsWritten(g, s, v, es);
      PageAsWritten(g, s, v, es + [e]) == HandleAsWritten(g, p.0, p.1, e)
  {
    assert (es + [e])[..|es|] == es;
  }

  /** The events behind the line-313 defect, on any network with a node `a`
      that has a `neighbors` entry and a node `c` that has none: click `a`,
      leave it (which highlights the selection, `a`, again) and enter `c`.
      The call for `c` throws, so the `neighbor` and edge classes are still
      those of `a`, where the corrected view for the same state marks no
      neighbour and no edge. `Highlight.IsolatedTargetExample` shows a
      network where `a`'s classes mark something. */
  lemma ClickThenEnterIsolated(g: Graph.Graph, v: Highlight.View, a: nat, c: nat)
    requires Graph.Indexed(g) && a < |g.nodes| && c < |g.nodes|
    requires g.nodes[a].id in g.neighbours && g.nodes[c].id !in g.neighbours
    ensures var p := PageAsWritten(g, Initial, v, [Click(a), MouseOut(a), MouseOver(c)]);
      && p.0.selected == Some(a) && p.0.target == Some(c)
      && p.1.classes.neighbour == Highlight.Classify(g, Some(a)).neighbour
      && p.1.classes.edgeActive == Highlight.Classify(g, Some(a)).edgeActive
      && (forall i :: 0 <= i < |g.nodes| ==> !Render(g, p.0).1.neighbour[i])
      && (forall k :: 0 <= k < |g.edges| ==> !Render(g, p.0).1.edgeActive[k])
  {
    var es := [Click(a), MouseOut(a), MouseOver(c)];
    PageStep(g, Initial, v, [], Click(a));
    assert [] + [Click(a)] == [Click(a)];
    var p1 := PageAsWritten(g, Initial, v, [Click(a)]);
    Highlight.AsWrittenAgreesWithEntry(g, v, Some(a));
    PageStep(g, Initial, v, [Click(a)], MouseOut(a));
    var p2 := PageAsWritten(g, Initial, v, [Click(a), MouseOut(a)]);
    Highlight.AsWrittenAgreesWithEntry(g, p1.1, Some(a));
    PageStep(g, Initial, v, [Click(a), MouseOut(a)], MouseOver(c));
    assert [Click(a), MouseOut(a)] + [MouseOver(c)] == es;
    Highlight.IsolatedTargetKeepsStaleClasses(g, p2.1, c);
    Highlight.IsolatedTargetMarksNothing(g, c);
  }

  /** With nothing selected the same moves leave nothing stale: leaving `a`
      calls `highlight_node` with no node, which clears every class before
      `c` is entered. */
  lemma EnterThenEnterIsolated(g: Graph.Graph, v: Highlight.View, a: nat, c: nat)
    requires Graph.Indexed(g) && a < |g.nodes| && c < |g.nodes|
    requires g.nodes[c].id !in g.neighbours
    ensures var p := PageAsWritten(g, Initial, v, [MouseOver(a), MouseOut(a), MouseOver(c)]);
      && p.0.selected == None && p.0.target == Some(c)
      && p.1.classes.neighbour == Highlight.Classify(g, None).neighbour
      && p.1.classes.edgeActive == Highlight.Classify(g, None).edgeActive
      && (forall i :: 0 <= i < |g.nodes| ==> !p.1.classes.neighbour[i])
      && (forall k :: 0 <= k < |g.edges| ==> !p.1.classes.edgeActive[k])
  {
    var es := [MouseOver(a), MouseOut(a), MouseOver(c)];
    PageStep(g, Initial, v, [], MouseOver(a));
    assert [] + [MouseOver(a)] == [MouseOver(a)];
    var p1 := PageAsWritten(g, Initial, v, [MouseOver(a)]);
    PageStep(g, Initial, v, [MouseOver(a)], MouseOut(a));
    var p2 := PageAsWritten(g, Initial, v, [MouseOver(a), MouseOut(a)]);
    Highlight.AsWrittenAgreesWithEntry(g, p1.1, None);
    PageStep(g, Initial, v, [MouseOver(a), MouseOut(a)], MouseOver(c));
    assert [MouseOver(a), MouseOut(a)] + [MouseOver(c)] == es;
    Highlight.IsolatedTargetKeepsStaleClasses(g, p2.1, c);
    Highlight.ClassifyMarksTarget(g, None);
  }

  /** The events behind the line-292 defect, on any network with a node `c`
      that has no `neighbors` entry and a node `a` that has one: enter `c`,
      leave it, enter `a`. The card for `a` shows the `--` left by `c` above
      the listing that a card built from scratch shows alone. */
  lemma EnterIsolatedThenLinked(g: Graph.Graph, v: Highlight.View, c: nat, a: nat)
    requires Graph.Indexed(g) && a < |g.nodes| && c < |g.nodes|
    requires g.nodes[a].id in g.neighbours && g.nodes[c].id !in g.neighbours
    ensures var p := PageAsWritten(g, Initial, v, [MouseOver(c), MouseOut(c), MouseOver(a)]);
      && p.0.target == Some(a)
      && p.1.card.description == [Highlight.Text("--")] + Highlight.RenderCard(Render(g, p.0).0, p.1.card).description
  {
    var es := [MouseOver(c), MouseOut(c), MouseOver(a)];
    PageStep(g, Initial, v, [], MouseOver(c));
    assert [] + [MouseOver(c)] == [MouseOver(c)];
    var p1 := PageAsWritten(g, Initial, v, [MouseOver(c)]);
    PageStep(g, Initial, v, [MouseOver(c)], MouseOut(c));
    var p2 := PageAsWritten(g, Initial, v, [MouseOver(c), MouseOut(c)]);
    PageStep(g, Initial, v, [MouseOver(c), MouseOut(c)], MouseOver(a));
    assert [MouseOver(c), MouseOut(c)] + [MouseOver(a)] == es;
    assert p2.1.card.description == [Highlight.Text("--")];
    assert Highlight.WithoutParas([Highlight.Text("--")]) == [Highlight.Text("--")];
  }
}
