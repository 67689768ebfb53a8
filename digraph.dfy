/** The part of `networkx.DiGraph` the retrieval engine uses: nodes and edges kept in
    first-insertion order, one attribute dictionary per node and per ordered pair, and
    `add_node` / `add_edge` merging new attributes into existing ones (`dict.update`). */
module DiGraphs {
  import opened PyValues

  /** The variant of the engine: `backend/graphrag_server.py` or
      `backend/services/graphrag_service_improved.py`. */
  datatype Variant = Server | Service

  type Pair = (string, string)

  /** The value of a graph: what a `DiGraph` holds at one moment. */
  datatype Graph = Graph(
    nodes: seq<string>,               // node ids, in first-insertion order
    attrs: map<string, Attrs>,        // G.nodes[id]
    edges: seq<Pair>,                 // ordered pairs, in first-insertion order
    edgeAttrs: map<Pair, Attrs>)      // G[u][v]

  const Empty: Graph := Graph([], map[], [], map[])

  /** The representation invariant: the orders list exactly the keys, once each,
      and every edge joins two nodes. */
  ghost predicate Valid(g: Graph) {
    && (forall i, j :: 0 <= i < j < |g.nodes| ==> g.nodes[i] != g.nodes[j])
    && (forall id :: id in g.attrs <==> id in g.nodes)
    && (forall i, j :: 0 <= i < j < |g.edges| ==> g.edges[i] != g.edges[j])
    && (forall e :: e in g.edgeAttrs <==> e in g.edges)
    && (forall e :: e in g.edgeAttrs ==> e.0 in g.attrs && e.1 in g.attrs)
  }

  /** The attribute types the engine's readers rely on: `text`, `title` and `type`
      hold strings and `level` an integer whenever present. */
  ghost predicate WellTypedAttrs(a: Attrs) {
    && ("text" in a ==> a["text"].Str?)
    && ("title" in a ==> a["title"].Str?)
    && ("type" in a ==> a["type"].Str?)
    && ("level" in a ==> a["level"].Int?)
  }

  ghost predicate WellTyped(g: Graph) {
    forall id :: id in g.attrs ==> WellTypedAttrs(g.attrs[id])
  }

  /** The invariant of every graph the engine builds. */
  ghost predicate Good(g: Graph) {
    Valid(g) && WellTyped(g)
  }

  /** `G.add_node(id, **a)`: a new node is appended; an existing one has `a` merged in. */
  function WithNode(g: Graph, id: string, a: Attrs): (r: Graph)
    ensures r.edges == g.edges && r.edgeAttrs == g.edgeAttrs
    ensures r.attrs == g.attrs[id := if id in g.attrs then g.attrs[id] + a else a]
  {
    if id in g.attrs then g.(attrs := g.attrs[id := g.attrs[id] + a])
    else g.(nodes := g.nodes + [id], attrs := g.attrs[id := a])
  }

  /** What `add_edge` does to an endpoint that is not yet a node. */
  function EnsureNode(g: Graph, id: string): (r: Graph)
    ensures r.edges == g.edges && r.edgeAttrs == g.edgeAttrs
    ensures id in g.attrs ==> r == g
    ensures r.attrs == if id in g.attrs then g.attrs else g.attrs[id := map[]]
  {
    if id in g.attrs then g else g.(nodes := g.nodes + [id], attrs := g.attrs[id := map[]])
  }

  /** `G.add_edge(u, v, **a)`: missing endpoints are added with no attributes; a new
      pair is appended; an existing pair has `a` merged into its attributes. */
  function WithEdge(g: Graph, u: string, v: string, a: Attrs): (r: Graph)
    ensures (u, v) in r.edgeAttrs
    ensures r.edgeAttrs == g.edgeAttrs[(u, v) := if (u, v) in g.edgeAttrs then g.edgeAttrs[(u, v)] + a else a]
    ensures u in g.attrs && v in g.attrs ==> r.nodes == g.nodes && r.attrs == g.attrs
    ensures (u, v) in g.edgeAttrs ==> r.edges == g.edges
  {
    var h := EnsureNode(EnsureNode(g, u), v);
    if (u, v) in h.edgeAttrs then h.(edgeAttrs := h.edgeAttrs[(u, v) := h.edgeAttrs[(u, v)] + a])
    else h.(edges := h.edges + [(u, v)], edgeAttrs := h.edgeAttrs[(u, v) := a])
  }

  /** `add_edge` gives a missing endpoint an empty dictionary and leaves other nodes alone. */
  lemma WithEdgeNodes(g: Graph, u: string, v: string, a: Attrs)
    ensures var r := WithEdge(g, u, v, a);
      && (forall id :: id in r.attrs <==> id in g.attrs || id == u || id == v)
      && (forall id :: id in r.attrs ==> r.attrs[id] == if id in g.attrs then g.attrs[id] else map[])
  {
  }

  lemma WithNodeGood(g: Graph, id: string, a: Attrs)
    requires Good(g) && WellTypedAttrs(a)
    ensures Good(WithNode(g, id, a))
  {
    var r := WithNode(g, id, a);
    if id !in g.attrs {
      forall i, j | 0 <= i < j < |r.nodes| ensures r.nodes[i] != r.nodes[j] {
        if j == |g.nodes| { assert r.nodes[i] in g.nodes; }
      }
    }
  }

  lemma EnsureNodeGood(g: Graph, id: string)
    requires Good(g)
    ensures Good(EnsureNode(g, id))
  {
    WithNodeGood(g, id, map[]);
  }

  lemma WithEdgeGood(g: Graph, u: string, v: string, a: Attrs)
    requires Good(g)
    ensures Good(WithEdge(g, u, v, a))
  {
    EnsureNodeGood(g, u);
    EnsureNodeGood(EnsureNode(g, u), v);
    var h := EnsureNode(EnsureNode(g, u), v);
    var r := WithEdge(g, u, v, a);
    if (u, v) !in h.edgeAttrs {
      forall i, j | 0 <= i < j < |r.edges| ensures r.edges[i] != r.edges[j] {
        if j == |h.edges| { assert r.edges[i] in h.edges; }
      }
    }
  }

  /** Re-adding an edge whose attributes already contain `a` changes nothing. */
  lemma WithEdgeAgain(g: Graph, u: string, v: string, a: Attrs)
    requires u in g.attrs && v in g.attrs
    ensures WithEdge(WithEdge(g, u, v, a), u, v, a) == WithEdge(g, u, v, a)
  {
    var r := WithEdge(g, u, v, a);
    var old_ := r.edgeAttrs[(u, v)];
    assert old_ + a == old_;
  }

  /** The targets `v` of the pairs `(u, v)` in `es`, in order. */
  function SuccIn(es: seq<Pair>, u: string): (r: seq<string>)
    ensures forall v :: v in r <==> (u, v) in es
  {
    if es == [] then []
    else (if es[0].0 == u then [es[0].1] else []) + SuccIn(es[1..], u)
  }

  /** The sources `w` of the pairs `(w, v)` in `es`, in order. */
  function PredIn(es: seq<Pair>, v: string): (r: seq<string>)
    ensures forall w :: w in r <==> (w, v) in es
  {
    if es == [] then []
    else (if es[0].1 == v then [es[0].0] else []) + PredIn(es[1..], v)
  }

  /** `G.successors(u)`. */
  function Successors(g: Graph, u: string): seq<string> {
    SuccIn(g.edges, u)
  }

  /** `G.predecessors(v)`. */
  function Predecessors(g: Graph, v: string): seq<string> {
    PredIn(g.edges, v)
  }

  /** `G[u][v].get("relation")`. */
  function Relation(g: Graph, u: string, v: string): Value {
    if (u, v) in g.edgeAttrs then Get(g.edgeAttrs[(u, v)], "relation") else Nil
  }

  /** `[v for v in vs if G[u][v].get("relation") == rel]`. */
  function OutWith(g: Graph, u: string, vs: seq<string>, rel: string): (r: seq<string>)
    ensures forall v :: v in r <==> v in vs && Relation(g, u, v) == Str(rel)
  {
    if vs == [] then []
    else (if Relation(g, u, vs[0]) == Str(rel) then [vs[0]] else []) + OutWith(g, u, vs[1..], rel)
  }

  /** `[w for w in ws if G[w][v].get("relation") == rel]`. */
  function InWith(g: Graph, ws: seq<string>, v: string, rel: string): (r: seq<string>)
    ensures forall w :: w in r <==> w in ws && Relation(g, w, v) == Str(rel)
  {
    if ws == [] then []
    else (if Relation(g, ws[0], v) == Str(rel) then [ws[0]] else []) + InWith(g, ws[1..], v, rel)
  }

  /** Targets of `references` edges out of `u`, in successor order. */
  function RefTargets(g: Graph, u: string): (r: seq<string>)
    ensures Valid(g) ==> forall v :: v in r <==> (u, v) in g.edgeAttrs && Relation(g, u, v) == Str("references")
  {
    OutWith(g, u, Successors(g, u), "references")
  }

  /** Children along `contains` edges out of `u`, in successor order. */
  function Children(g: Graph, u: string): (r: seq<string>)
    ensures Valid(g) ==> forall v :: v in r <==> (u, v) in g.edgeAttrs && Relation(g, u, v) == Str("contains")
  {
    OutWith(g, u, Successors(g, u), "contains")
  }

  /** Parents along `contains` edges into `v`, in predecessor order. */
  function Parents(g: Graph, v: string): (r: seq<string>)
    ensures Valid(g) ==> forall w :: w in r <==> (w, v) in g.edgeAttrs && Relation(g, w, v) == Str("contains")
  {
    InWith(g, Predecessors(g, v), v, "contains")
  }

  /** A mutable directed graph, as `nx.DiGraph()`. */
  class DiGraph {
    var nodes: seq<string>
    var attrs: map<string, Attrs>
    var edges: seq<Pair>
    var edgeAttrs: map<Pair, Attrs>

    function Snapshot(): Graph
      reads this
    {
      Graph(nodes, attrs, edges, edgeAttrs)
    }

    constructor ()
      ensures Snapshot() == Empty
    {
      nodes, attrs, edges, edgeAttrs := [], map[], [], map[];
    }

    /** `id in G.nodes()`. */
    function HasNode(id: string): (b: bool)
      reads this
      ensures b <==> id in Snapshot().attrs
    {
      id in attrs
    }

    method AddNode(id: string, a: Attrs)
      modifies this
      ensures Snapshot() == WithNode(old(Snapshot()), id, a)
    {
      if id in attrs {
        attrs := attrs[id := attrs[id] + a];
      } else {
        nodes := nodes + [id];
        attrs := attrs[id := a];
      }
    }

    method AddEdge(u: string, v: string, a: Attrs)
      modifies this
      ensures Snapshot() == WithEdge(old(Snapshot()), u, v, a)
    {
      if u !in attrs {
        nodes := nodes + [u];
        attrs := attrs[u := map[]];
      }
      if v !in attrs {
        nodes := nodes + [v];
        attrs := attrs[v := map[]];
      }
      if (u, v) in edgeAttrs {
        edgeAttrs := edgeAttrs[(u, v) := edgeAttrs[(u, v)] + a];
      } else {
        edges := edges + [(u, v)];
        edgeAttrs := edgeAttrs[(u, v) := a];
      }
    }
  }
}
