/** `build_improved_graph`: step 1 (the hierarchy) followed by step 2, which resolves
    every citation of every clause and point, visiting first each chapter's own
    article list and then, when the chapter has sections, the articles of each section. */
module Build {
  import opened PyValues
  import opened DiGraphs
  import opened Corpus
  import opened Hierarchy
  import opened References

  // ---------------------------------------------------------------------------
  // Specification of step 2, loop by loop.

  function CitationsRefs(g: Graph, cits: seq<Citation>, articleId: string, clauseId: Option<string>, variant: Variant): Graph
    decreases |cits|
  {
    if cits == [] then g
    else ResolveSpec(CitationsRefs(g, cits[..|cits| - 1], articleId, clauseId, variant), cits[|cits| - 1], articleId, clauseId, variant)
  }

  /** The citations of a clause's points, all resolved from the clause. */
  function PointsRefs(g: Graph, pts: seq<Point>, articleId: string, clauseId: Option<string>, variant: Variant): Graph
    decreases |pts|
  {
    if pts == [] then g
    else CitationsRefs(PointsRefs(g, pts[..|pts| - 1], articleId, clauseId, variant), pts[|pts| - 1].references, articleId, clauseId, variant)
  }

  function ClauseRefs(g: Graph, cl: Clause, articleId: string, variant: Variant): Graph {
    PointsRefs(CitationsRefs(g, cl.references, articleId, cl.clauseId, variant), cl.points, articleId, cl.clauseId, variant)
  }

  function ClausesRefs(g: Graph, cls: seq<Clause>, articleId: string, variant: Variant): Graph
    decreases |cls|
  {
    if cls == [] then g
    else ClauseRefs(ClausesRefs(g, cls[..|cls| - 1], articleId, variant), cls[|cls| - 1], articleId, variant)
  }

  function ArticlesRefs(g: Graph, arts: seq<Article>, variant: Variant): Graph
    decreases |arts|
  {
    if arts == [] then g
    else
      var art := arts[|arts| - 1];
      ClausesRefs(ArticlesRefs(g, arts[..|arts| - 1], variant), art.clauses, art.articleId, variant)
  }

  function SectionsRefs(g: Graph, secs: seq<Section>, variant: Variant): Graph
    decreases |secs|
  {
    if secs == [] then g
    else ArticlesRefs(SectionsRefs(g, secs[..|secs| - 1], variant), secs[|secs| - 1].articles, variant)
  }

  /** One chapter of step 2: its own article list (even when it has sections), then
      the articles of its sections. */
  function ChapterRefs(g: Graph, ch: Chapter, variant: Variant): Graph {
    var g1 := ArticlesRefs(g, ch.articles, variant);
    if ch.sections != [] then SectionsRefs(g1, ch.sections, variant) else g1
  }

  function ChaptersRefs(g: Graph, chs: Corpus, variant: Variant): Graph
    decreases |chs|
  {
    if chs == [] then g else ChapterRefs(ChaptersRefs(g, chs[..|chs| - 1], variant), chs[|chs| - 1], variant)
  }

  /** The graph `build_improved_graph` returns. */
  function BuildSpec(chs: Corpus, variant: Variant): Graph {
    ChaptersRefs(ChaptersNodes(Empty, chs), chs, variant)
  }

  // ---------------------------------------------------------------------------
  // Step 2 and the whole build, on the mutable graph.

  method ResolveCitations(g: DiGraph, cits: seq<Citation>, articleId: string, clauseId: Option<string>, variant: Variant)
    modifies g
    ensures g.Snapshot() == CitationsRefs(old(g.Snapshot()), cits, articleId, clauseId, variant)
  {
    ghost var g0 := g.Snapshot();
    var i := 0;
    while i < |cits|
      invariant 0 <= i <= |cits|
      invariant g.Snapshot() == CitationsRefs(g0, cits[..i], articleId, clauseId, variant)
    {
      ResolveReference(g, cits[i], articleId, clauseId, variant);
      assert cits[..i + 1][..i] == cits[..i];
      i := i + 1;
    }
    assert cits[..i] == cits;
  }

  /** One clause of step 2: its own citations, then those of its points. */
  method ResolveClause(g: DiGraph, cl: Clause, articleId: string, variant: Variant)
    modifies g
    ensures g.Snapshot() == ClauseRefs(old(g.Snapshot()), cl, articleId, variant)
  {
    ResolveCitations(g, cl.references, articleId, cl.clauseId, variant);
    ghost var h := g.Snapshot();
    var j := 0;
    while j < |cl.points|
      invariant 0 <= j <= |cl.points|
      invariant g.Snapshot() == PointsRefs(h, cl.points[..j], articleId, cl.clauseId, variant)
    {
      ResolveCitations(g, cl.points[j].references, articleId, cl.clauseId, variant);
      assert cl.points[..j + 1][..j] == cl.points[..j];
      j := j + 1;
    }
    assert cl.points[..j] == cl.points;
  }

  /** The clause loop of step 2 for one article. */
  method ResolveArticle(g: DiGraph, art: Article, variant: Variant)
    modifies g
    ensures g.Snapshot() == ClausesRefs(old(g.Snapshot()), art.clauses, art.articleId, variant)
  {
    var clauses := art.clauses;
    ghost var g0 := g.Snapshot();
    var i := 0;
    while i < |clauses|
      invariant 0 <= i <= |clauses|
      invariant g.Snapshot() == ClausesRefs(g0, clauses[..i], art.articleId, variant)
    {
      ResolveClause(g, clauses[i], art.articleId, variant);
      assert clauses[..i + 1][..i] == clauses[..i];
      i := i + 1;
    }
    assert clauses[..i] == clauses;
  }

  method ResolveArticles(g: DiGraph, arts: seq<Article>, variant: Variant)
    modifies g
    ensures g.Snapshot() == ArticlesRefs(old(g.Snapshot()), arts, variant)
  {
    ghost var g0 := g.Snapshot();
    var i := 0;
    while i < |arts|
      invariant 0 <= i <= |arts|
      invariant g.Snapshot() == ArticlesRefs(g0, arts[..i], variant)
    {
      ResolveArticle(g, arts[i], variant);
      assert arts[..i + 1][..i] == arts[..i];
      i := i + 1;
    }
    assert arts[..i] == arts;
  }

  /** The section loop of step 2 for one chapter. */
  method ResolveSections(g: DiGraph, secs: seq<Section>, variant: Variant)
    modifies g
    ensures g.Snapshot() == SectionsRefs(old(g.Snapshot()), secs, variant)
  {
    ghost var g0 := g.Snapshot();
    var j := 0;
    while j < |secs|
      invariant 0 <= j <= |secs|
      invariant g.Snapshot() == SectionsRefs(g0, secs[..j], variant)
    {
      ResolveArticles(g, secs[j].articles, variant);
      assert secs[..j + 1][..j] == secs[..j];
      j := j + 1;
    }
    assert secs[..j] == secs;
  }

  /** One chapter of step 2: its own articles, then those of its sections. */
  method ResolveChapter(g: DiGraph, ch: Chapter, variant: Variant)
    modifies g
    ensures g.Snapshot() == ChapterRefs(old(g.Snapshot()), ch, variant)
  {
    ResolveArticles(g, ch.articles, variant);
    if ch.sections != [] {
      ResolveSections(g, ch.sections, variant);
    }
  }

  /** Step 2 of `build_improved_graph`. */
  method ResolveAll(g: DiGraph, chs: Corpus, variant: Variant)
    modifies g
    ensures g.Snapshot() == ChaptersRefs(old(g.Snapshot()), chs, variant)
  {
    ghost var g0 := g.Snapshot();
    var i := 0;
    while i < |chs|
      invariant 0 <= i <= |chs|
      invariant g.Snapshot() == ChaptersRefs(g0, chs[..i], variant)
    {
      ResolveChapter(g, chs[i], variant);
      assert chs[..i + 1][..i] == chs[..i];
      i := i + 1;
    }
    assert chs[..i] == chs;
  }

  /** `build_improved_graph`. */
  method BuildImprovedGraph(chs: Corpus, variant: Variant) returns (g: DiGraph)
    ensures fresh(g)
    ensures g.Snapshot() == BuildSpec(chs, variant)
  {
    g := new DiGraph();
    AddChapters(g, chs);
    ResolveAll(g, chs, variant);
  }

  // ---------------------------------------------------------------------------
  // Properties of the build.

  /** The node ids of the clauses of `arts`. */
  function ClauseSources(arts: seq<Article>): set<string>
    decreases |arts|
  {
    if arts == [] then {}
    else
      var art := arts[|arts| - 1];
      ClauseSources(arts[..|arts| - 1]) + set cl | cl in art.clauses :: ClauseNodeId(art.articleId, RenderOpt(cl.clauseId))
  }

  /** The node ids of the clauses of the articles of `secs`. */
  function SectionSources(secs: seq<Section>): set<string>
    decreases |secs|
  {
    if secs == [] then {} else SectionSources(secs[..|secs| - 1]) + ClauseSources(secs[|secs| - 1].articles)
  }

  /** The node ids of the clauses of a chapter's own articles and of its sections' articles. */
  function ChapterSources(ch: Chapter): set<string> {
    ClauseSources(ch.articles) + SectionSources(ch.sections)
  }

  /** The node ids of every clause of the corpus. */
  function CorpusSources(chs: Corpus): set<string>
    decreases |chs|
  {
    if chs == [] then {} else CorpusSources(chs[..|chs| - 1]) + ChapterSources(chs[|chs| - 1])
  }

  /** Every edge is a containment edge, or a reference edge leaving one of `sources`. */
  ghost predicate EdgeKinds(g: Graph, sources: set<string>) {
    forall e :: e in g.edgeAttrs ==>
      || Get(g.edgeAttrs[e], "relation") == Str("contains")
      || (Get(g.edgeAttrs[e], "relation") == Str("references") && e.0 in sources)
  }

  /** What step 2 does to a graph: it keeps the invariant, the nodes and their
      attributes and every pair, and adds only reference edges leaving `sources`. */
  ghost predicate Refines(g: Graph, r: Graph, sources: set<string>) {
    Good(r) && EdgeKinds(r, sources) && r.nodes == g.nodes && r.attrs == g.attrs && Grows(g, r)
  }

  lemma ResolveRefines(g: Graph, cit: Citation, articleId: string, clauseId: Option<string>, variant: Variant, sources: set<string>)
    requires Good(g) && EdgeKinds(g, sources) && ClauseNodeId(articleId, RenderOpt(clauseId)) in sources
    ensures Refines(g, ResolveSpec(g, cit, articleId, clauseId, variant), sources)
  {
    var r := ResolveSpec(g, cit, articleId, clauseId, variant);
    ResolveKeepsNodes(g, cit, articleId, clauseId, variant);
    ResolveEdges(g, cit, articleId, clauseId, variant);
    var source := ClauseNodeId(articleId, RenderOpt(clauseId));
    if Source(articleId, clauseId, variant).Some? && source in g.attrs {
      var ts := Targets(g, cit.target, articleId, clauseId);
      forall e | e in r.edgeAttrs
        ensures || Get(r.edgeAttrs[e], "relation") == Str("contains")
                || (Get(r.edgeAttrs[e], "relation") == Str("references") && e.0 in sources)
      {
        if e.0 == source && e.1 in ts {
          assert Relation(r, e.0, e.1) == Str("references");
        }
      }
    }
  }

  lemma {:induction false} CitationsRefsRefines(g: Graph, cits: seq<Citation>, articleId: string, clauseId: Option<string>, variant: Variant, sources: set<string>)
    requires Good(g) && EdgeKinds(g, sources) && ClauseNodeId(articleId, RenderOpt(clauseId)) in sources
    ensures Refines(g, CitationsRefs(g, cits, articleId, clauseId, variant), sources)
    decreases |cits|
  {
    if cits != [] {
      CitationsRefsRefines(g, cits[..|cits| - 1], articleId, clauseId, variant, sources);
      ResolveRefines(CitationsRefs(g, cits[..|cits| - 1], articleId, clauseId, variant), cits[|cits| - 1], articleId, clauseId, variant, sources);
    }
  }

  lemma {:induction false} PointsRefsRefines(g: Graph, pts: seq<Point>, articleId: string, clauseId: Option<string>, variant: Variant, sources: set<string>)
    requires Good(g) && EdgeKinds(g, sources) && ClauseNodeId(articleId, RenderOpt(clauseId)) in sources
    ensures Refines(g, PointsRefs(g, pts, articleId, clauseId, variant), sources)
    decreases |pts|
  {
    if pts != [] {
      PointsRefsRefines(g, pts[..|pts| - 1], articleId, clauseId, variant, sources);
      CitationsRefsRefines(PointsRefs(g, pts[..|pts| - 1], articleId, clauseId, variant), pts[|pts| - 1].references, articleId, clauseId, variant, sources);
    }
  }

  lemma ClauseRefsRefines(g: Graph, cl: Clause, articleId: string, variant: Variant, sources: set<string>)
    requires Good(g) && EdgeKinds(g, sources) && ClauseNodeId(articleId, RenderOpt(cl.clauseId)) in sources
    ensures Refines(g, ClauseRefs(g, cl, articleId, variant), sources)
  {
    CitationsRefsRefines(g, cl.references, articleId, cl.clauseId, variant, sources);
    PointsRefsRefines(CitationsRefs(g, cl.references, articleId, cl.clauseId, variant), cl.points, articleId, cl.clauseId, variant, sources);
  }

  lemma {:induction false} ClausesRefsRefines(g: Graph, cls: seq<Clause>, articleId: string, variant: Variant, sources: set<string>)
    requires Good(g) && EdgeKinds(g, sources)
    requires forall cl :: cl in cls ==> ClauseNodeId(articleId, RenderOpt(cl.clauseId)) in sources
    ensures Refines(g, ClausesRefs(g, cls, articleId, variant), sources)
    decreases |cls|
  {
    if cls != [] {
      var init, last := cls[..|cls| - 1], cls[|cls| - 1];
      assert forall cl :: cl in init ==> cl in cls;
      ClausesRefsRefines(g, init, articleId, variant, sources);
      assert last in cls;
      ClauseRefsRefines(ClausesRefs(g, init, articleId, variant), last, articleId, variant, sources);
    }
  }

  lemma {:induction false} ArticlesRefsRefines(g: Graph, arts: seq<Article>, variant: Variant, sources: set<string>)
    requires Good(g) && EdgeKinds(g, sources) && ClauseSources(arts) <= sources
    ensures Refines(g, ArticlesRefs(g, arts, variant), sources)
    decreases |arts|
  {
    if arts != [] {
      var art := arts[|arts| - 1];
      ArticlesRefsRefines(g, arts[..|arts| - 1], variant, sources);
      ClausesRefsRefines(ArticlesRefs(g, arts[..|arts| - 1], variant), art.clauses, art.articleId, variant, sources);
    }
  }

  lemma {:induction false} SectionsRefsRefines(g: Graph, secs: seq<Section>, variant: Variant, sources: set<string>)
    requires Good(g) && EdgeKinds(g, sources) && SectionSources(secs) <= sources
    ensures Refines(g, SectionsRefs(g, secs, variant), sources)
    decreases |secs|
  {
    if secs != [] {
      SectionsRefsRefines(g, secs[..|secs| - 1], variant, sources);
      ArticlesRefsRefines(SectionsRefs(g, secs[..|secs| - 1], variant), secs[|secs| - 1].articles, variant, sources);
    }
  }

  lemma ChapterRefsRefines(g: Graph, ch: Chapter, variant: Variant, sources: set<string>)
    requires Good(g) && EdgeKinds(g, sources) && ChapterSources(ch) <= sources
    ensures Refines(g, ChapterRefs(g, ch, variant), sources)
  {
    ArticlesRefsRefines(g, ch.articles, variant, sources);
    SectionsRefsRefines(ArticlesRefs(g, ch.articles, variant), ch.sections, variant, sources);
  }

  /** Step 2 only adds reference edges, each leaving the node of a clause of the
      corpus: nodes, their attributes and every earlier pair survive. */
  lemma {:induction false} ChaptersRefsRefines(g: Graph, chs: Corpus, variant: Variant, sources: set<string>)
    requires Good(g) && EdgeKinds(g, sources) && CorpusSources(chs) <= sources
    ensures Refines(g, ChaptersRefs(g, chs, variant), sources)
    decreases |chs|
  {
    if chs != [] {
      ChaptersRefsRefines(g, chs[..|chs| - 1], variant, sources);
      ChapterRefsRefines(ChaptersRefs(g, chs[..|chs| - 1], variant), chs[|chs| - 1], variant, sources);
    }
  }

  lemma ContainsOnlyKinds(g: Graph, sources: set<string>)
    requires AllContains(g)
    ensures EdgeKinds(g, sources)
  {
  }

  /** The built graph satisfies the graph invariant, every node has the level its type
      gets, every edge is a containment edge or a reference edge leaving a clause, and
      every chapter's containment tree is present. */
  lemma BuildFacts(chs: Corpus, variant: Variant)
    ensures var b := BuildSpec(chs, variant);
      && Good(b) && LevelsByType(b) && EdgeKinds(b, CorpusSources(chs))
      && forall i :: 0 <= i < |chs| ==> ChapterIn(b, chs[i])
  {
    var s1 := ChaptersNodes(Empty, chs);
    var b := BuildSpec(chs, variant);
    BuildRefines(chs, variant);
    ChaptersNodesCreate(Empty, chs);
    forall i | 0 <= i < |chs| ensures ChapterIn(b, chs[i]) {
      ChapterInGrows(s1, b, chs[i]);
    }
  }

  /** Step 2 refines the graph of step 1. */
  lemma BuildRefines(chs: Corpus, variant: Variant)
    ensures Built(ChaptersNodes(Empty, chs))
    ensures Refines(ChaptersNodes(Empty, chs), BuildSpec(chs, variant), CorpusSources(chs))
  {
    var s1 := ChaptersNodes(Empty, chs);
    ChaptersNodesBuilt(Empty, chs);
    ContainsOnlyKinds(s1, CorpusSources(chs));
    ChaptersRefsRefines(s1, chs, variant, CorpusSources(chs));
  }
}
