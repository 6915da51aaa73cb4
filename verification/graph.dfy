/** Loading a network document (`on_svg_loaded`, lines 85-119): the id table,
    coordinate normalisation, edge resolution and the neighbour index.

    A node is identified by its position in the document's node sequence: the
    page compares node records with `===`, so two records with the same id are
    still two nodes. */
module Graph {
  import opened Wrappers
  import Layout
  import Adjacency

  /** A node record as read from the document (`caption` is its `label`
      field, absent when the record has none); size and colour only feed the
      SVG drawing and are not kept. */
  datatype Node = Node(id: string, x: real, y: real, caption: Option<string>)

  /** An edge as read from the document: the ids of its endpoints. */
  datatype RawEdge = RawEdge(source: string, target: string)

  datatype Document = Document(nodes: seq<Node>, edges: seq<RawEdge>)

  /** An edge after line 109-110 rewrote it: its endpoints are node positions. */
  datatype Edge = Edge(source: nat, target: nat)

  /** Line 115 or 116 reads `.id` of an endpoint the table did not have
      (a TypeError in the page): the edge's position and the missing id. */
  datatype LoadError = UnknownEndpoint(edge: nat, id: string)

  /** `i` is the last node whose id is `id`. */
  ghost predicate LastWithId(nodes: seq<Node>, id: string, i: nat)
  {
    i < |nodes| && nodes[i].id == id && forall j :: i < j < |nodes| ==> nodes[j].id != id
  }

  /** `t` is the `nodes` object of line 92 after every node was written. */
  ghost predicate TableOf(nodes: seq<Node>, t: map<string, nat>)
  {
    && (forall id :: id in t <==> exists i :: 0 <= i < |nodes| && nodes[i].id == id)
    && (forall id :: id in t ==> LastWithId(nodes, id, t[id]))
  }

  /** Line 92: each node written under its id in order, so a later node with
      the same id replaces an earlier one. */
  function IdTable(nodes: seq<Node>): (t: map<string, nat>)
    ensures TableOf(nodes, t)
  {
    if |nodes| == 0 then map[]
    else
      var prefix := nodes[..|nodes| - 1];
      var n := nodes[|nodes| - 1];
      IdTableStep(prefix, n, IdTable(prefix));
      assert prefix + [n] == nodes;
      IdTable(prefix)[n.id := |prefix|]
  }

  lemma IdTableStep(prefix: seq<Node>, n: Node, t: map<string, nat>)
    requires TableOf(prefix, t)
    ensures TableOf(prefix + [n], t[n.id := |prefix|])
  {
    var nodes := prefix + [n];
    var r := t[n.id := |prefix|];
    assert forall i :: 0 <= i < |prefix| ==> nodes[i] == prefix[i];
    assert nodes[|prefix|] == n;
    forall id
      ensures id in r <==> exists i :: 0 <= i < |nodes| && nodes[i].id == id
    {
      if id in r && id != n.id {
        var i :| 0 <= i < |prefix| && prefix[i].id == id;
        assert nodes[i].id == id;
      }
    }
  }

  /** The table names a node for the id, and it is the node with that id. */
  lemma TableEntryHasId(nodes: seq<Node>, id: string)
    requires id in IdTable(nodes)
    ensures IdTable(nodes)[id] < |nodes| && nodes[IdTable(nodes)[id]].id == id
  {
  }

  predicate Known(table: map<string, nat>, e: RawEdge)
  {
    e.source in table && e.target in table
  }

  /** `err` reports the edge where the page stops: the first edge with an
      unknown endpoint, and its source id when that is the unknown one (line
      115 is evaluated before line 116). */
  ghost predicate FirstUnknown(table: map<string, nat>, edges: seq<RawEdge>, err: LoadError)
  {
    && err.edge < |edges|
    && (forall k :: 0 <= k < err.edge ==> Known(table, edges[k]))
    && !Known(table, edges[err.edge])
    && err.id == (if edges[err.edge].source !in table then edges[err.edge].source else edges[err.edge].target)
  }

  /** Lines 108-111 followed by the `.id` reads of lines 115-116. */
  function Resolve(table: map<string, nat>, edges: seq<RawEdge>): (r: Result<seq<Edge>, LoadError>)
    ensures r.Success? <==> forall k :: 0 <= k < |edges| ==> Known(table, edges[k])
    ensures r.Success? ==> |r.value| == |edges| && forall k :: 0 <= k < |edges| ==>
      r.value[k] == Edge(table[edges[k].source], table[edges[k].target])
    ensures r.Failure? ==> FirstUnknown(table, edges, r.error)
  {
    if |edges| == 0 then Success([])
    else
      var prefix := edges[..|edges| - 1];
      var e := edges[|edges| - 1];
      assert forall k :: 0 <= k < |prefix| ==> edges[k] == prefix[k];
      match Resolve(table, prefix)
      case Failure(err) => Failure(err)
      case Success(es) =>
        if e.source !in table then Failure(UnknownEndpoint(|prefix|, e.source))
        else if e.target !in table then Failure(UnknownEndpoint(|prefix|, e.target))
        else Success(es + [Edge(table[e.source], table[e.target])])
  }

  /** Each edge seen through the ids of its resolved endpoints. */
  function Links(nodes: seq<Node>, edges: seq<Edge>): (ls: seq<Adjacency.Link>)
    requires forall k :: 0 <= k < |edges| ==> edges[k].source < |nodes| && edges[k].target < |nodes|
    ensures |ls| == |edges|
  {
    seq(|edges|, k requires 0 <= k < |edges| => (nodes[edges[k].source].id, nodes[edges[k].target].id))
  }

  /** The raw coordinates of the nodes, in document order. */
  function Positions(nodes: seq<Node>): (ps: seq<Layout.Point>)
    ensures |ps| == |nodes|
    ensures forall i :: 0 <= i < |nodes| ==> ps[i] == Layout.Point(nodes[i].x, nodes[i].y)
  {
    seq(|nodes|, i requires 0 <= i < |nodes| => Layout.Point(nodes[i].x, nodes[i].y))
  }

  /** A loaded network: the document's nodes, their normalised layout, the id
      table, the resolved edges and the `neighbors` index. */
  datatype Graph = Graph(
    nodes: seq<Node>,
    layout: Layout.Layout,
    table: map<string, nat>,
    edges: seq<Edge>,
    neighbours: Adjacency.Index)

  /** The tables of a graph agree with its nodes and edges. */
  ghost predicate Indexed(g: Graph)
  {
    && g.table == IdTable(g.nodes)
    && (forall k :: 0 <= k < |g.edges| ==> g.edges[k].source < |g.nodes| && g.edges[k].target < |g.nodes|)
    && g.neighbours == Adjacency.Neighbours(Links(g.nodes, g.edges))
  }

  ghost predicate WellFormed(g: Graph)
  {
    Indexed(g) && Layout.NormalisedFrom(g.layout, Positions(g.nodes))
  }

  /** The rest of `on_svg_loaded` up to the drawing: the network, or the first
      edge at which the page throws. */
  method Load(doc: Document) returns (r: Result<Graph, LoadError>)
    ensures r.Success? <==> forall k :: 0 <= k < |doc.edges| ==> Known(IdTable(doc.nodes), doc.edges[k])
    ensures r.Failure? ==> FirstUnknown(IdTable(doc.nodes), doc.edges, r.error)
    ensures r.Success? ==> WellFormed(r.value) && r.value.nodes == doc.nodes && |r.value.edges| == |doc.edges|
    ensures r.Success? ==> forall k :: 0 <= k < |doc.edges| ==>
      LastWithId(doc.nodes, doc.edges[k].source, r.value.edges[k].source) &&
      LastWithId(doc.nodes, doc.edges[k].target, r.value.edges[k].target)
  {
    var table := IdTable(doc.nodes);
    var resolved := Resolve(table, doc.edges);
    if resolved.Failure? {
      return Failure(resolved.error);
    }
    var edges := resolved.value;
    ResolvedEdgesAreLast(doc.nodes, doc.edges, edges);
    var layout := Layout.Normalise(Positions(doc.nodes));
    r := Success(Graph(doc.nodes, layout, table, edges, Adjacency.Neighbours(Links(doc.nodes, edges))));
  }

  /** Each resolved endpoint is the last node carrying the endpoint's id. */
  lemma ResolvedEdgesAreLast(nodes: seq<Node>, raw: seq<RawEdge>, edges: seq<Edge>)
    requires Resolve(IdTable(nodes), raw) == Success(edges)
    ensures |edges| == |raw|
    ensures forall k :: 0 <= k < |raw| ==>
      LastWithId(nodes, raw[k].source, edges[k].source) && LastWithId(nodes, raw[k].target, edges[k].target)
    ensures forall k :: 0 <= k < |edges| ==> edges[k].source < |nodes| && edges[k].target < |nodes|
  {
  }

  /** Resolution keeps the ids: the link of every resolved edge is the pair of
      ids the document wrote, so the neighbour index is built from the
      document's own edge list. */
  lemma ResolvedLinksAreDocumentIds(doc: Document)
    requires Resolve(IdTable(doc.nodes), doc.edges).Success?
    ensures var es := Resolve(IdTable(doc.nodes), doc.edges).value;
      && (forall k :: 0 <= k < |es| ==> es[k].source < |doc.nodes| && es[k].target < |doc.nodes|)
      && Links(doc.nodes, es) == seq(|doc.edges|, k requires 0 <= k < |doc.edges| => (doc.edges[k].source, doc.edges[k].target))
  {
  }

  /** In a loaded graph, every edge joins its endpoints in the neighbour index
      both ways (the symmetry lines 117-118 build). */
  lemma EdgeEndsAreNeighbours(g: Graph, k: nat)
    requires Indexed(g) && k < |g.edges|
    ensures var (u, v) := (g.nodes[g.edges[k].source].id, g.nodes[g.edges[k].target].id);
      u in g.neighbours && v in g.neighbours[u] && v in g.neighbours && u in g.neighbours[v]
  {
    var links := Links(g.nodes, g.edges);
    var u := g.nodes[g.edges[k].source].id;
    var v := g.nodes[g.edges[k].target].id;
    assert links[k] == (u, v);
    Adjacency.NeighboursSymmetric(links, u, v);
  }

  /** Every id listed in the neighbour index is the id of some node, so the
      lookup `nodes[nn]` of line 301 always finds a record. */
  lemma ListedIdsAreKnown(g: Graph, u: string)
    requires Indexed(g) && u in g.neighbours
    ensures forall v :: v in g.neighbours[u] ==> v in g.table && g.table[v] < |g.nodes|
  {
    var links := Links(g.nodes, g.edges);
    forall v | v in g.neighbours[u]
      ensures v in g.table && g.table[v] < |g.nodes|
    {
      Adjacency.NeighboursSymmetric(links, u, v);
      var k :| 0 <= k < |links| && (links[k] == (u, v) || links[k] == (v, u));
      var i := if links[k] == (u, v) then g.edges[k].target else g.edges[k].source;
      assert g.nodes[i].id == v;
    }
  }
}
