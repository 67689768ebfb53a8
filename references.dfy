/** The reference resolver (`resolve_reference` / `_resolve_reference`): turns one
    citation of a clause or point into `references` edges from the citing clause's
    node to the most specific nodes of the graph that match the citation. */
module References {
  import opened PyValues
  import opened DiGraphs
  import opened Corpus

  /** A slot value as the resolver renders it, with `"current"` replaced by the
      citing unit's own id. */
  function Resolve(c: Cite, current: string): (r: string)
    ensures c == Id("current") ==> r == current
    ensures c.Id? && c.s != "current" ==> r == c.s
  {
    match c
    case Id(s) => if s == "current" then current else s
    case Null => "None"
  }

  /** `target_clause_for_points`: the `clause` value when it is present and not null,
      otherwise the only element of a one-element `clauses` list (when not null). */
  function PointClause(t: Target): (r: Option<Cite>)
    ensures r.Some? ==> r.value.Id?
    ensures t.clause.Some? && t.clause.value.Id? ==> r == t.clause
  {
    if t.clause.Some? && t.clause.value.Id? then t.clause
    else if t.clauses.Some? && |t.clauses.value| == 1 && t.clauses.value[0].Id? then Some(t.clauses.value[0])
    else None
  }

  /** The clause node ids named by a `clauses` list, in order. */
  function ClauseIds(base: string, current: string, cs: seq<Cite>): (r: seq<string>)
    ensures |r| == |cs|
    ensures forall i :: 0 <= i < |cs| ==> r[i] == ClauseNodeId(base, Resolve(cs[i], current))
    decreases |cs|
  {
    if cs == [] then []
    else ClauseIds(base, current, cs[..|cs| - 1]) + [ClauseNodeId(base, Resolve(cs[|cs| - 1], current))]
  }

  /** The point node ids named by a `points` list, in order. */
  function PointIds(base: string, clause: string, ps: seq<string>): (r: seq<string>)
    ensures |r| == |ps|
    ensures forall i :: 0 <= i < |ps| ==> r[i] == PointNodeId(base, clause, ps[i])
    decreases |ps|
  {
    if ps == [] then []
    else PointIds(base, clause, ps[..|ps| - 1]) + [PointNodeId(base, clause, ps[|ps| - 1])]
  }

  /** The clause-level candidates: from a `clauses` list, else from a `clause` key. */
  function ClauseCandidates(t: Target, base: string, current: string): seq<string> {
    if t.clauses.Some? then ClauseIds(base, current, t.clauses.value)
    else if t.clause.Some? then [ClauseNodeId(base, Resolve(t.clause.value, current))]
    else []
  }

  /** The point-level candidates: from a `points` list, else from a `point` string,
      both under the clause `PointClause` picks (none without one). */
  function PointCandidates(t: Target, base: string, current: string): seq<string> {
    match PointClause(t)
    case None => []
    case Some(c) =>
      var clause := Resolve(c, current);
      if t.points.Some? then PointIds(base, clause, t.points.value)
      else if t.point.Some? then [PointNodeId(base, clause, t.point.value)]
      else []
  }

  /** `[x for x in ids if x in G.nodes()]`. */
  function Present(g: Graph, ids: seq<string>): (r: seq<string>)
    ensures forall x :: x in r <==> x in ids && x in g.attrs
    decreases |ids|
  {
    if ids == [] then []
    else Present(g, ids[..|ids| - 1]) + (if ids[|ids| - 1] in g.attrs then [ids[|ids| - 1]] else [])
  }

  /** The article a citation names: `None` when the `article` slot is missing or null. */
  function BaseArticle(t: Target, currentArticle: string): (r: Option<string>)
    ensures r.None? <==> t.article.None? || t.article.value.Null?
  {
    if t.article.None? || t.article.value.Null? then None else Some(Resolve(t.article.value, currentArticle))
  }

  /** The specific candidates of a citation that exist in the graph, in order. */
  function Found(g: Graph, t: Target, base: string, current: string): seq<string> {
    Present(g, ClauseCandidates(t, base, current)) + Present(g, PointCandidates(t, base, current))
  }

  /** `target_nodes`: the existing clause and point candidates, or the article itself
      when none of them exists. */
  function Targets(g: Graph, t: Target, currentArticle: string, currentClause: Option<string>): (r: seq<string>)
    ensures forall x :: x in r ==> x in g.attrs
  {
    match BaseArticle(t, currentArticle)
    case None => []
    case Some(base) =>
      var found := Found(g, t, base, RenderOpt(currentClause));
      if found == [] && ArticleNodeId(base) in g.attrs then [ArticleNodeId(base)] else found
  }

  /** The attributes of a `references` edge. */
  function RefEdge(text: string): Attrs {
    map["relation" := Str("references"), "ref_text" := Str(text)]
  }

  /** `G.add_edge(u, t, **a)` for each `t` of `ts`, in order. */
  function AddEdges(g: Graph, u: string, ts: seq<string>, a: Attrs): Graph
    decreases |ts|
  {
    if ts == [] then g else WithEdge(AddEdges(g, u, ts[..|ts| - 1], a), u, ts[|ts| - 1], a)
  }

  /** The citing clause's node id; the server variant has none for a null clause id. */
  function Source(currentArticle: string, currentClause: Option<string>, variant: Variant): (r: Option<string>)
    ensures r.Some? ==> r.value == ClauseNodeId(currentArticle, RenderOpt(currentClause))
    ensures r.None? <==> variant == Server && currentClause.None?
  {
    if variant == Server && currentClause.None? then None
    else Some(ClauseNodeId(currentArticle, RenderOpt(currentClause)))
  }

  /** The graph after resolving one citation of clause `currentClause` of article
      `currentArticle`: unchanged unless the citing clause's node exists. */
  function ResolveSpec(g: Graph, cit: Citation, currentArticle: string, currentClause: Option<string>, variant: Variant): Graph {
    match Source(currentArticle, currentClause, variant)
    case None => g
    case Some(source) =>
      if source !in g.attrs then g
      else AddEdges(g, source, Targets(g, cit.target, currentArticle, currentClause), RefEdge(cit.text))
  }

  // ---------------------------------------------------------------------------
  // The resolver, on the mutable graph.

  /** The loop over a `clauses` list, keeping the ids that exist. */
  method ClauseIdsPresent(g: DiGraph, base: string, current: string, cs: seq<Cite>) returns (found: seq<string>)
    ensures found == Present(g.Snapshot(), ClauseIds(base, current, cs))
  {
    found := [];
    var i := 0;
    while i < |cs|
      invariant 0 <= i <= |cs|
      invariant found == Present(g.Snapshot(), ClauseIds(base, current, cs[..i]))
    {
      var node := ClauseNodeId(base, Resolve(cs[i], current));
      assert cs[..i + 1][..i] == cs[..i];
      if g.HasNode(node) {
        found := found + [node];
      }
      i := i + 1;
    }
    assert cs[..i] == cs;
  }

  /** The loop over a `points` list, keeping the ids that exist. */
  method PointIdsPresent(g: DiGraph, base: string, clause: string, ps: seq<string>) returns (found: seq<string>)
    ensures found == Present(g.Snapshot(), PointIds(base, clause, ps))
  {
    found := [];
    var i := 0;
    while i < |ps|
      invariant 0 <= i <= |ps|
      invariant found == Present(g.Snapshot(), PointIds(base, clause, ps[..i]))
    {
      var node := PointNodeId(base, clause, ps[i]);
      assert ps[..i + 1][..i] == ps[..i];
      if g.HasNode(node) {
        found := found + [node];
      }
      i := i + 1;
    }
    assert ps[..i] == ps;
  }

  /** The existing clause-level candidates. */
  method ClauseMatches(g: DiGraph, t: Target, base: string, current: string) returns (found: seq<string>)
    ensures found == Present(g.Snapshot(), ClauseCandidates(t, base, current))
  {
    found := [];
    if t.clauses.Some? {
      found := ClauseIdsPresent(g, base, current, t.clauses.value);
    } else if t.clause.Some? {
      var node := ClauseNodeId(base, Resolve(t.clause.value, current));
      if g.HasNode(node) {
        found := [node];
      }
    }
  }

  /** The existing point-level candidates. */
  method PointMatches(g: DiGraph, t: Target, base: string, current: string) returns (found: seq<string>)
    ensures found == Present(g.Snapshot(), PointCandidates(t, base, current))
  {
    found := [];
    var pointClause := PointClause(t);
    if pointClause.Some? {
      var clause := Resolve(pointClause.value, current);
      if t.points.Some? {
        found := PointIdsPresent(g, base, clause, t.points.value);
      } else if t.point.Some? {
        var node := PointNodeId(base, clause, t.point.value);
        if g.HasNode(node) {
          found := [node];
        }
      }
    }
  }

  /** `target_nodes`, including the article fallback. */
  method FindTargets(g: DiGraph, t: Target, currentArticle: string, currentClause: Option<string>) returns (targetNodes: seq<string>)
    requires t.article.Some? && t.article.value.Id?
    ensures targetNodes == Targets(g.Snapshot(), t, currentArticle, currentClause)
  {
    var base := Resolve(t.article.value, currentArticle);
    var current := RenderOpt(currentClause);
    var clausePart := ClauseMatches(g, t, base, current);
    var pointPart := PointMatches(g, t, base, current);
    targetNodes := clausePart + pointPart;
    if targetNodes == [] && g.HasNode(ArticleNodeId(base)) {
      targetNodes := [ArticleNodeId(base)];
    }
  }

  /** `resolve_reference`: the loop creating one `references` edge per target. */
  method ResolveReference(g: DiGraph, cit: Citation, currentArticle: string, currentClause: Option<string>, variant: Variant)
    modifies g
    ensures g.Snapshot() == ResolveSpec(old(g.Snapshot()), cit, currentArticle, currentClause, variant)
  {
    var t := cit.target;
    if variant == Server && currentClause.None? {
      return;
    }
    var source := ClauseNodeId(currentArticle, RenderOpt(currentClause));
    if !g.HasNode(source) {
      return;
    }
    if t.article.None? || t.article.value.Null? {
      return;
    }
    var targetNodes := FindTargets(g, t, currentArticle, currentClause);
    AddReferenceEdges(g, source, targetNodes, RefEdge(cit.text));
  }

  /** The final loop of `resolve_reference`: one edge from the source to each target. */
  method AddReferenceEdges(g: DiGraph, source: string, targetNodes: seq<string>, a: Attrs)
    modifies g
    ensures g.Snapshot() == AddEdges(old(g.Snapshot()), source, targetNodes, a)
  {
    ghost var g0 := g.Snapshot();
    var j := 0;
    while j < |targetNodes|
      invariant 0 <= j <= |targetNodes|
      invariant g.Snapshot() == AddEdges(g0, source, targetNodes[..j], a)
    {
      ghost var prev := g.Snapshot();
      g.AddEdge(source, targetNodes[j], a);
      assert g.Snapshot() == WithEdge(prev, source, targetNodes[j], a);
      assert targetNodes[..j + 1][..j] == targetNodes[..j];
      assert AddEdges(g0, source, targetNodes[..j + 1], a) == WithEdge(prev, source, targetNodes[j], a);
      j := j + 1;
    }
    assert targetNodes[..j] == targetNodes;
  }

  // ---------------------------------------------------------------------------
  // Properties of the resolver.

  /** Candidates that exist in the graph. */
  ghost predicate AnyPresent(g: Graph, ids: seq<string>) {
    exists x :: x in ids && x in g.attrs
  }

  lemma PresentEmpty(g: Graph, ids: seq<string>)
    ensures Present(g, ids) == [] <==> !AnyPresent(g, ids)
  {
    var r := Present(g, ids);
    if r != [] {
      assert r[0] in r;
    }
  }

  /** The filter distributes over concatenation, so the kept candidates stay in
      candidate order. */
  lemma {:induction false} PresentOrder(g: Graph, a: seq<string>, b: seq<string>)
    ensures Present(g, a + b) == Present(g, a) + Present(g, b)
    decreases |b|
  {
    if b == [] {
      assert a + b == a;
    } else {
      var init, last := b[..|b| - 1], b[|b| - 1];
      var tail := if last in g.attrs then [last] else [];
      PresentOrder(g, a, init);
      assert (a + b)[..|a + b| - 1] == a + init;
      assert (a + b)[|a + b| - 1] == last;
      assert Present(g, a + b) == Present(g, a + init) + tail;
      assert Present(g, b) == Present(g, init) + tail;
    }
  }

  /** A single candidate is kept exactly when it is a node. */
  lemma PresentOne(g: Graph, x: string)
    ensures Present(g, [x]) == if x in g.attrs then [x] else []
  {
    assert [x][..0] == [];
  }

  /** The resolver prefers the most specific match: when some clause or point candidate
      exists, exactly those candidates (in order) are the targets, and the article is
      used only when none of them exists. */
  lemma MostSpecific(g: Graph, t: Target, currentArticle: string, currentClause: Option<string>, base: string)
    requires BaseArticle(t, currentArticle) == Some(base)
    ensures var cands := ClauseCandidates(t, base, RenderOpt(currentClause)) + PointCandidates(t, base, RenderOpt(currentClause));
      && (AnyPresent(g, cands) ==> Targets(g, t, currentArticle, currentClause) == Found(g, t, base, RenderOpt(currentClause)))
      && (!AnyPresent(g, cands) ==>
            Targets(g, t, currentArticle, currentClause) == (if ArticleNodeId(base) in g.attrs then [ArticleNodeId(base)] else []))
  {
    var current := RenderOpt(currentClause);
    var cc, pc := ClauseCandidates(t, base, current), PointCandidates(t, base, current);
    PresentEmpty(g, cc);
    PresentEmpty(g, pc);
    if AnyPresent(g, cc + pc) {
      var x :| x in cc + pc && x in g.attrs;
      assert x in cc || x in pc;
    } else {
      forall x | x in cc ensures x !in g.attrs { assert x in cc + pc; }
      forall x | x in pc ensures x !in g.attrs { assert x in cc + pc; }
    }
  }

  /** A citation is dropped (no target at all) exactly when it names no article, or
      when neither any of its candidates nor the article it names is in the graph. */
  lemma ResolutionMiss(g: Graph, t: Target, currentArticle: string, currentClause: Option<string>)
    ensures Targets(g, t, currentArticle, currentClause) == [] <==>
      match BaseArticle(t, currentArticle)
      case None => true
      case Some(base) =>
        && !AnyPresent(g, ClauseCandidates(t, base, RenderOpt(currentClause)) + PointCandidates(t, base, RenderOpt(currentClause)))
        && ArticleNodeId(base) !in g.attrs
  {
    match BaseArticle(t, currentArticle)
    case None =>
    case Some(base) =>
      MostSpecific(g, t, currentArticle, currentClause, base);
      var current := RenderOpt(currentClause);
      var cands := ClauseCandidates(t, base, current) + PointCandidates(t, base, current);
      if AnyPresent(g, cands) {
        var x :| x in cands && x in g.attrs;
        var cc, pc := ClauseCandidates(t, base, current), PointCandidates(t, base, current);
        assert x in cc || x in pc;
        if x in cc { assert x in Present(g, cc); } else { assert x in Present(g, pc); }
        assert Found(g, t, base, current) != [];
      }
  }

  /** The targets depend on which nodes exist, nothing else. */
  lemma {:induction false} PresentSameNodes(g: Graph, h: Graph, ids: seq<string>)
    requires g.attrs.Keys == h.attrs.Keys
    ensures Present(g, ids) == Present(h, ids)
    decreases |ids|
  {
    if ids != [] {
      PresentSameNodes(g, h, ids[..|ids| - 1]);
      assert ids[|ids| - 1] in g.attrs <==> ids[|ids| - 1] in h.attrs;
    }
  }

  lemma TargetsSameNodes(g: Graph, h: Graph, t: Target, currentArticle: string, currentClause: Option<string>)
    requires g.attrs.Keys == h.attrs.Keys
    ensures Targets(g, t, currentArticle, currentClause) == Targets(h, t, currentArticle, currentClause)
  {
    match BaseArticle(t, currentArticle)
    case None =>
    case Some(base) =>
      var current := RenderOpt(currentClause);
      PresentSameNodes(g, h, ClauseCandidates(t, base, current));
      PresentSameNodes(g, h, PointCandidates(t, base, current));
      assert ArticleNodeId(base) in g.attrs <==> ArticleNodeId(base) in h.attrs;
  }

  /** The attributes a pair ends with after `a` is merged into it. */
  function Merged(m: map<Pair, Attrs>, e: Pair, a: Attrs): (r: Attrs)
    ensures forall k :: k in a ==> k in r && r[k] == a[k]
  {
    if e in m then m[e] + a else a
  }

  /** `add_edge` from `u` to existing nodes keeps the graph's invariant and its nodes. */
  lemma {:induction false} AddEdgesKeepNodes(g: Graph, u: string, ts: seq<string>, a: Attrs)
    requires Good(g) && u in g.attrs
    requires forall t :: t in ts ==> t in g.attrs
    ensures var r := AddEdges(g, u, ts, a);
      Good(r) && r.nodes == g.nodes && r.attrs == g.attrs
    decreases |ts|
  {
    if ts != [] {
      assert forall t :: t in ts[..|ts| - 1] ==> t in ts;
      AddEdgesKeepNodes(g, u, ts[..|ts| - 1], a);
      WithEdgeGood(AddEdges(g, u, ts[..|ts| - 1], a), u, ts[|ts| - 1], a);
    }
  }

  /** `add_edge` from `u` to each of `ts` creates exactly the pairs `(u, t)`. */
  lemma {:induction false} AddEdgesKeys(g: Graph, u: string, ts: seq<string>, a: Attrs)
    ensures forall e :: e in AddEdges(g, u, ts, a).edgeAttrs <==> e in g.edgeAttrs || (e.0 == u && e.1 in ts)
    decreases |ts|
  {
    if ts != [] {
      AddEdgesKeys(g, u, ts[..|ts| - 1], a);
      assert forall t :: t in ts <==> t in ts[..|ts| - 1] || t == ts[|ts| - 1];
    }
  }

  /** ... merges `a` into each of those pairs ... */
  lemma {:induction false} AddEdgesMergedAt(g: Graph, u: string, ts: seq<string>, a: Attrs, t: string)
    requires t in ts
    ensures (u, t) in AddEdges(g, u, ts, a).edgeAttrs
    ensures AddEdges(g, u, ts, a).edgeAttrs[(u, t)] == Merged(g.edgeAttrs, (u, t), a)
    decreases |ts|
  {
    var init, last := ts[..|ts| - 1], ts[|ts| - 1];
    var mid := AddEdges(g, u, init, a);
    var r := WithEdge(mid, u, last, a);
    assert AddEdges(g, u, ts, a) == r;
    if t != last {
      assert t in init;
      AddEdgesMergedAt(g, u, init, a, t);
      assert r.edgeAttrs[(u, t)] == mid.edgeAttrs[(u, t)];
    } else if t in init {
      AddEdgesMergedAt(g, u, init, a, t);
      MergedAbsorbs(g.edgeAttrs, (u, t), a);
    } else {
      AddEdgesFrame(g, u, init, a);
    }
  }

  lemma AddEdgesMerged(g: Graph, u: string, ts: seq<string>, a: Attrs)
    ensures forall t :: t in ts ==> (u, t) in AddEdges(g, u, ts, a).edgeAttrs
    ensures forall t :: t in ts ==> AddEdges(g, u, ts, a).edgeAttrs[(u, t)] == Merged(g.edgeAttrs, (u, t), a)
  {
    forall t | t in ts
      ensures (u, t) in AddEdges(g, u, ts, a).edgeAttrs
      ensures AddEdges(g, u, ts, a).edgeAttrs[(u, t)] == Merged(g.edgeAttrs, (u, t), a)
    {
      AddEdgesMergedAt(g, u, ts, a, t);
    }
  }

  /** ... and leaves every other pair alone. */
  lemma {:induction false} AddEdgesFrame(g: Graph, u: string, ts: seq<string>, a: Attrs)
    ensures forall e :: e in g.edgeAttrs && !(e.0 == u && e.1 in ts) ==> e in AddEdges(g, u, ts, a).edgeAttrs
    ensures forall e :: e in g.edgeAttrs && !(e.0 == u && e.1 in ts) ==> AddEdges(g, u, ts, a).edgeAttrs[e] == g.edgeAttrs[e]
    ensures forall t :: t !in ts ==> (u, t) !in g.edgeAttrs ==> (u, t) !in AddEdges(g, u, ts, a).edgeAttrs
    decreases |ts|
  {
    if ts != [] {
      AddEdgesFrame(g, u, ts[..|ts| - 1], a);
      assert forall t :: t in ts <==> t in ts[..|ts| - 1] || t == ts[|ts| - 1];
    }
  }

  lemma AddEdgesPairs(g: Graph, u: string, ts: seq<string>, a: Attrs)
    ensures var r := AddEdges(g, u, ts, a);
      && (forall e :: e in r.edgeAttrs <==> e in g.edgeAttrs || (e.0 == u && e.1 in ts))
      && (forall t :: t in ts ==> r.edgeAttrs[(u, t)] == Merged(g.edgeAttrs, (u, t), a))
      && (forall e :: e in g.edgeAttrs && !(e.0 == u && e.1 in ts) ==> r.edgeAttrs[e] == g.edgeAttrs[e])
  {
    AddEdgesKeys(g, u, ts, a);
    AddEdgesMerged(g, u, ts, a);
    AddEdgesFrame(g, u, ts, a);
  }

  /** Merging attributes a pair already carries changes nothing. */
  lemma {:induction false} AddEdgesAbsorbed(g: Graph, u: string, ts: seq<string>, a: Attrs)
    requires u in g.attrs
    requires forall t :: t in ts ==> t in g.attrs && (u, t) in g.edgeAttrs && g.edgeAttrs[(u, t)] + a == g.edgeAttrs[(u, t)]
    ensures AddEdges(g, u, ts, a) == g
    decreases |ts|
  {
    if ts != [] {
      var init, last := ts[..|ts| - 1], ts[|ts| - 1];
      assert forall t :: t in init ==> t in ts;
      AddEdgesAbsorbed(g, u, init, a);
      var r := WithEdge(g, u, last, a);
      assert last in ts;
      assert r.edgeAttrs == g.edgeAttrs;
      assert AddEdges(g, u, ts, a) == r;
    }
  }

  /** Resolving a citation keeps the graph's invariant and its nodes. */
  lemma ResolveKeepsNodes(g: Graph, cit: Citation, currentArticle: string, currentClause: Option<string>, variant: Variant)
    requires Good(g)
    ensures var r := ResolveSpec(g, cit, currentArticle, currentClause, variant);
      Good(r) && r.nodes == g.nodes && r.attrs == g.attrs
  {
    match Source(currentArticle, currentClause, variant)
    case None =>
    case Some(source) =>
      if source in g.attrs {
        AddEdgesKeepNodes(g, source, Targets(g, cit.target, currentArticle, currentClause), RefEdge(cit.text));
      }
  }

  /** When the citing clause's node exists, resolving gives each target a `references`
      edge carrying the citation's text from that node and leaves every other pair
      alone; otherwise the graph does not change. */
  lemma ResolveEdges(g: Graph, cit: Citation, currentArticle: string, currentClause: Option<string>, variant: Variant)
    ensures var r := ResolveSpec(g, cit, currentArticle, currentClause, variant);
      var source := ClauseNodeId(currentArticle, RenderOpt(currentClause));
      var ts := Targets(g, cit.target, currentArticle, currentClause);
      if Source(currentArticle, currentClause, variant).Some? && source in g.attrs then
        && (forall e :: e in r.edgeAttrs <==> e in g.edgeAttrs || (e.0 == source && e.1 in ts))
        && (forall x :: x in ts ==>
              Relation(r, source, x) == Str("references") && Get(r.edgeAttrs[(source, x)], "ref_text") == Str(cit.text))
        && (forall e :: e in g.edgeAttrs && !(e.0 == source && e.1 in ts) ==> r.edgeAttrs[e] == g.edgeAttrs[e])
      else r == g
  {
    var source := ClauseNodeId(currentArticle, RenderOpt(currentClause));
    if Source(currentArticle, currentClause, variant).Some? && source in g.attrs {
      var ts := Targets(g, cit.target, currentArticle, currentClause);
      var a := RefEdge(cit.text);
      var r := AddEdges(g, source, ts, a);
      assert ResolveSpec(g, cit, currentArticle, currentClause, variant) == r;
      AddEdgesPairs(g, source, ts, a);
      forall x | x in ts
        ensures Relation(r, source, x) == Str("references") && Get(r.edgeAttrs[(source, x)], "ref_text") == Str(cit.text)
      {
        var m := r.edgeAttrs[(source, x)];
        assert m == Merged(g.edgeAttrs, (source, x), a);
        assert "relation" in a && "ref_text" in a;
        assert m["relation"] == Str("references") && m["ref_text"] == Str(cit.text);
      }
    }
  }

  lemma MergedAbsorbs(m: map<Pair, Attrs>, e: Pair, a: Attrs)
    ensures Merged(m, e, a) + a == Merged(m, e, a)
  {
  }

  /** Resolving the same citation twice is the same as resolving it once. */
  lemma ResolveIdempotent(g: Graph, cit: Citation, currentArticle: string, currentClause: Option<string>, variant: Variant)
    requires Good(g)
    ensures var r := ResolveSpec(g, cit, currentArticle, currentClause, variant);
      ResolveSpec(r, cit, currentArticle, currentClause, variant) == r
  {
    var source := ClauseNodeId(currentArticle, RenderOpt(currentClause));
    if Source(currentArticle, currentClause, variant).Some? && source in g.attrs {
      var a := RefEdge(cit.text);
      var ts := Targets(g, cit.target, currentArticle, currentClause);
      var r := AddEdges(g, source, ts, a);
      assert r == ResolveSpec(g, cit, currentArticle, currentClause, variant);
      AddEdgesKeepNodes(g, source, ts, a);
      AddEdgesMerged(g, source, ts, a);
      TargetsSameNodes(g, r, cit.target, currentArticle, currentClause);
      forall x | x in ts
        ensures x in r.attrs && (source, x) in r.edgeAttrs && r.edgeAttrs[(source, x)] + a == r.edgeAttrs[(source, x)]
      {
        MergedAbsorbs(g.edgeAttrs, (source, x), a);
      }
      AddEdgesAbsorbed(r, source, ts, a);
      assert ResolveSpec(r, cit, currentArticle, currentClause, variant) == AddEdges(r, source, ts, a);
    }
  }

  /** The two variants differ only for a clause with a null id: the server drops its
      citations, the service resolves them from the node id ending in `_Khoản_None`. */
  lemma VariantsAgree(g: Graph, cit: Citation, currentArticle: string, currentClause: Option<string>)
    ensures currentClause.Some? ==>
      ResolveSpec(g, cit, currentArticle, currentClause, Server) == ResolveSpec(g, cit, currentArticle, currentClause, Service)
    ensures ResolveSpec(g, cit, currentArticle, None, Server) == g
    ensures Source(currentArticle, None, Service) == Some(ClauseNodeId(currentArticle, "None"))
  {
  }

  /** A clause citing one of its own points (`{"article": "current", "clause": "current",
      "point": p}`) turns the point's containment edge into a `references` edge: the
      graph keeps one attribute dictionary per ordered pair. */
  lemma OwnPointLosesParent(g: Graph, text: string, articleId: string, clauseId: string, pointId: string, variant: Variant)
    requires Good(g)
    requires ClauseNodeId(articleId, clauseId) in g.attrs && PointNodeId(articleId, clauseId, pointId) in g.attrs
    requires Relation(g, ClauseNodeId(articleId, clauseId), PointNodeId(articleId, clauseId, pointId)) == Str("contains")
    ensures var cit := Citation(text, Target(Some(Id("current")), None, Some(Id("current")), Some(pointId), None));
      var r := ResolveSpec(g, cit, articleId, Some(clauseId), variant);
      Relation(r, ClauseNodeId(articleId, clauseId), PointNodeId(articleId, clauseId, pointId)) == Str("references")
  {
    var t := Target(Some(Id("current")), None, Some(Id("current")), Some(pointId), None);
    var cit := Citation(text, t);
    var pointNode := PointNodeId(articleId, clauseId, pointId);
    assert PointCandidates(t, articleId, clauseId) == [pointNode];
    assert pointNode in Present(g, [pointNode]);
    assert pointNode in Targets(g, t, articleId, Some(clauseId));
    ResolveEdges(g, cit, articleId, Some(clauseId), variant);
  }
}
