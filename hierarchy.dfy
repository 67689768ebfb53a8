/** The hierarchy builder: step 1 of `build_improved_graph` and `add_article_nodes`,
    which add one node per chapter, section, article, clause and point and one
    `contains` edge from each unit's immediate parent. */
module Hierarchy {
  import opened PyValues
  import opened DiGraphs
  import opened Corpus
  import Sorting

  // ---------------------------------------------------------------------------
  // Specification: the graph after each loop of the builder, as a fold over the
  // input sequence (the n-th prefix gives the graph after n iterations).

  function PointStep(g: Graph, articleId: string, clauseId: Option<string>, chapterId: string, pt: Point): Graph {
    var clauseNode := ClauseNodeId(articleId, RenderOpt(clauseId));
    var pointNode := PointNodeId(articleId, RenderOpt(clauseId), pt.pointId);
    WithEdge(WithNode(g, pointNode, PointAttrs(pt, articleId, clauseId, chapterId)), clauseNode, pointNode, ContainsEdge)
  }

  function PointsNodes(g: Graph, articleId: string, clauseId: Option<string>, chapterId: string, pts: seq<Point>): Graph
    decreases |pts|
  {
    if pts == [] then g
    else PointStep(PointsNodes(g, articleId, clauseId, chapterId, pts[..|pts| - 1]), articleId, clauseId, chapterId, pts[|pts| - 1])
  }

  /** The clause node and its edge from the article, before the clause's points. */
  function ClauseHead(g: Graph, articleId: string, chapterId: string, parentNode: string, cl: Clause): Graph {
    var clauseNode := ClauseNodeId(articleId, RenderOpt(cl.clauseId));
    WithEdge(WithNode(g, clauseNode, ClauseAttrs(cl, articleId, chapterId, parentNode)),
             ArticleNodeId(articleId), clauseNode, ContainsEdge)
  }

  function ClauseStep(g: Graph, articleId: string, chapterId: string, parentNode: string, cl: Clause): Graph {
    PointsNodes(ClauseHead(g, articleId, chapterId, parentNode, cl), articleId, cl.clauseId, chapterId, cl.points)
  }

  function ClausesNodes(g: Graph, articleId: string, chapterId: string, parentNode: string, cls: seq<Clause>): Graph
    decreases |cls|
  {
    if cls == [] then g
    else ClauseStep(ClausesNodes(g, articleId, chapterId, parentNode, cls[..|cls| - 1]), articleId, chapterId, parentNode, cls[|cls| - 1])
  }

  /** The article node and its edge from the parent, before the article's clauses. */
  function ArticleHead(g: Graph, art: Article, chapterId: string, parentNode: string): Graph {
    var articleNode := ArticleNodeId(art.articleId);
    WithEdge(WithNode(g, articleNode, ArticleAttrs(art, chapterId, parentNode)), parentNode, articleNode, ContainsEdge)
  }

  /** `add_article_nodes(G, article, chapter_id, parent_node_id, ...)`. */
  function ArticleNodes(g: Graph, art: Article, chapterId: string, parentNode: string): Graph {
    ClausesNodes(ArticleHead(g, art, chapterId, parentNode), art.articleId, chapterId, parentNode, art.clauses)
  }

  function ArticlesNodes(g: Graph, arts: seq<Article>, chapterId: string, parentNode: string): Graph
    decreases |arts|
  {
    if arts == [] then g
    else ArticleNodes(ArticlesNodes(g, arts[..|arts| - 1], chapterId, parentNode), arts[|arts| - 1], chapterId, parentNode)
  }

  /** The section node and its edge from the chapter, before the section's articles. */
  function SectionHead(g: Graph, chapterId: string, sec: Section): Graph {
    var chapterNode := ChapterNodeId(chapterId);
    var sectionNode := SectionNodeId(chapterNode, sec.sectionId);
    WithEdge(WithNode(g, sectionNode, SectionAttrs(sec, chapterId)), chapterNode, sectionNode, ContainsEdge)
  }

  function SectionStep(g: Graph, chapterId: string, sec: Section): Graph {
    ArticlesNodes(SectionHead(g, chapterId, sec), sec.articles, chapterId,
                  SectionNodeId(ChapterNodeId(chapterId), sec.sectionId))
  }

  function SectionsNodes(g: Graph, chapterId: string, secs: seq<Section>): Graph
    decreases |secs|
  {
    if secs == [] then g
    else SectionStep(SectionsNodes(g, chapterId, secs[..|secs| - 1]), chapterId, secs[|secs| - 1])
  }

  /** One chapter: its node, then its sections or (only when it has none) its articles. */
  function ChapterStep(g: Graph, ch: Chapter): Graph {
    var g1 := WithNode(g, ChapterNodeId(ch.chapterId), ChapterAttrs(ch));
    if ch.sections != [] then SectionsNodes(g1, ch.chapterId, ch.sections)
    else if ch.articles != [] then ArticlesNodes(g1, ch.articles, ch.chapterId, ChapterNodeId(ch.chapterId))
    else g1
  }

  /** Step 1 of `build_improved_graph`: every chapter in order. */
  function ChaptersNodes(g: Graph, chs: Corpus): Graph
    decreases |chs|
  {
    if chs == [] then g else ChapterStep(ChaptersNodes(g, chs[..|chs| - 1]), chs[|chs| - 1])
  }

  // ---------------------------------------------------------------------------
  // The builder's loops, on the mutable graph.

  /** One clause of `add_article_nodes`: the clause node, its edge from the article,
      then its points. */
  method AddClauseNodes(g: DiGraph, articleId: string, chapterId: string, parentNode: string, cl: Clause)
    modifies g
    ensures g.Snapshot() == ClauseStep(old(g.Snapshot()), articleId, chapterId, parentNode, cl)
  {
    var clauseNode := ClauseNodeId(articleId, RenderOpt(cl.clauseId));
    g.AddNode(clauseNode, ClauseAttrs(cl, articleId, chapterId, parentNode));
    g.AddEdge(ArticleNodeId(articleId), clauseNode, ContainsEdge);
    var points := cl.points;
    ghost var h := g.Snapshot();
    var j := 0;
    while j < |points|
      invariant 0 <= j <= |points|
      invariant g.Snapshot() == PointsNodes(h, articleId, cl.clauseId, chapterId, points[..j])
    {
      var pt := points[j];
      var pointNode := PointNodeId(articleId, RenderOpt(cl.clauseId), pt.pointId);
      g.AddNode(pointNode, PointAttrs(pt, articleId, cl.clauseId, chapterId));
      g.AddEdge(clauseNode, pointNode, ContainsEdge);
      assert points[..j + 1][..j] == points[..j];
      j := j + 1;
    }
    assert points[..j] == points;
  }

  /** `add_article_nodes`: the article node, its clauses and their points. */
  method AddArticleNodes(g: DiGraph, art: Article, chapterId: string, parentNode: string)
    modifies g
    ensures g.Snapshot() == ArticleNodes(old(g.Snapshot()), art, chapterId, parentNode)
  {
    var articleNode := ArticleNodeId(art.articleId);
    g.AddNode(articleNode, ArticleAttrs(art, chapterId, parentNode));
    g.AddEdge(parentNode, articleNode, ContainsEdge);
    var clauses := art.clauses;
    ghost var g1 := g.Snapshot();
    var i := 0;
    while i < |clauses|
      invariant 0 <= i <= |clauses|
      invariant g.Snapshot() == ClausesNodes(g1, art.articleId, chapterId, parentNode, clauses[..i])
    {
      AddClauseNodes(g, art.articleId, chapterId, parentNode, clauses[i]);
      assert clauses[..i + 1][..i] == clauses[..i];
      i := i + 1;
    }
    assert clauses[..i] == clauses;
  }

  /** The articles of one parent, in order. */
  method AddArticles(g: DiGraph, arts: seq<Article>, chapterId: string, parentNode: string)
    modifies g
    ensures g.Snapshot() == ArticlesNodes(old(g.Snapshot()), arts, chapterId, parentNode)
  {
    ghost var g0 := g.Snapshot();
    var i := 0;
    while i < |arts|
      invariant 0 <= i <= |arts|
      invariant g.Snapshot() == ArticlesNodes(g0, arts[..i], chapterId, parentNode)
    {
      AddArticleNodes(g, arts[i], chapterId, parentNode);
      assert arts[..i + 1][..i] == arts[..i];
      i := i + 1;
    }
    assert arts[..i] == arts;
  }

  /** The section loop of step 1 for one chapter: each section node, its edge from the
      chapter, then its articles. */
  method AddSections(g: DiGraph, chapterId: string, secs: seq<Section>)
    modifies g
    ensures g.Snapshot() == SectionsNodes(old(g.Snapshot()), chapterId, secs)
  {
    var chapterNode := ChapterNodeId(chapterId);
    ghost var g0 := g.Snapshot();
    var j := 0;
    while j < |secs|
      invariant 0 <= j <= |secs|
      invariant g.Snapshot() == SectionsNodes(g0, chapterId, secs[..j])
    {
      var sec := secs[j];
      var sectionNode := SectionNodeId(chapterNode, sec.sectionId);
      g.AddNode(sectionNode, SectionAttrs(sec, chapterId));
      g.AddEdge(chapterNode, sectionNode, ContainsEdge);
      AddArticles(g, sec.articles, chapterId, sectionNode);
      assert secs[..j + 1][..j] == secs[..j];
      j := j + 1;
    }
    assert secs[..j] == secs;
  }

  /** One chapter of step 1: its node, then its sections or, for a chapter without
      sections, its articles. */
  method AddChapter(g: DiGraph, ch: Chapter)
    modifies g
    ensures g.Snapshot() == ChapterStep(old(g.Snapshot()), ch)
  {
    var chapterNode := ChapterNodeId(ch.chapterId);
    g.AddNode(chapterNode, ChapterAttrs(ch));
    if ch.sections != [] {
      AddSections(g, ch.chapterId, ch.sections);
    } else if ch.articles != [] {
      AddArticles(g, ch.articles, ch.chapterId, chapterNode);
    }
  }

  /** Step 1 of `build_improved_graph`: every chapter in order. */
  method AddChapters(g: DiGraph, chs: Corpus)
    modifies g
    ensures g.Snapshot() == ChaptersNodes(old(g.Snapshot()), chs)
  {
    ghost var g0 := g.Snapshot();
    var i := 0;
    while i < |chs|
      invariant 0 <= i <= |chs|
      invariant g.Snapshot() == ChaptersNodes(g0, chs[..i])
    {
      AddChapter(g, chs[i]);
      assert chs[..i + 1][..i] == chs[..i];
      i := i + 1;
    }
    assert chs[..i] == chs;
  }

  // ---------------------------------------------------------------------------
  // Properties of the hierarchy.

  /** The level each node type receives as the builder is written: chapters 0,
      sections 1, articles 1 (every parent id contains "Chương"), clauses 3 or 4 and
      points 4 (every clause id contains "Khoản"). */
  predicate TypeLevel(a: Attrs) {
    var t := Get(a, "type");
    var l := Get(a, "level");
    && (t == Str("chapter") ==> l == Int(0))
    && (t == Str("section") ==> l == Int(1))
    && (t == Str("article") ==> l == Int(1))
    && (t == Str("clause") ==> l == Int(3) || l == Int(4))
    && (t == Str("point") ==> l == Int(4))
  }

  ghost predicate LevelsByType(g: Graph) {
    forall id :: id in g.attrs ==> TypeLevel(g.attrs[id])
  }

  /** Every edge is a containment edge (true until references are resolved). */
  ghost predicate AllContains(g: Graph) {
    forall e :: e in g.edgeAttrs ==> Get(g.edgeAttrs[e], "relation") == Str("contains")
  }

  /** The invariant of step 1 of the build. */
  ghost predicate Built(g: Graph) {
    Good(g) && LevelsByType(g) && AllContains(g)
  }

  /** No node and no edge disappears. */
  ghost predicate Grows(g: Graph, r: Graph) {
    && (forall id :: id in g.attrs ==> id in r.attrs)
    && (forall e :: e in g.edgeAttrs ==> e in r.edgeAttrs)
  }

  // The containment edges each loop promises to create.

  ghost predicate PointsIn(r: Graph, articleId: string, clauseId: Option<string>, pts: seq<Point>) {
    forall q :: 0 <= q < |pts| ==>
      (ClauseNodeId(articleId, RenderOpt(clauseId)), PointNodeId(articleId, RenderOpt(clauseId), pts[q].pointId)) in r.edgeAttrs
  }

  ghost predicate ClauseIn(r: Graph, articleId: string, cl: Clause) {
    && (ArticleNodeId(articleId), ClauseNodeId(articleId, RenderOpt(cl.clauseId))) in r.edgeAttrs
    && PointsIn(r, articleId, cl.clauseId, cl.points)
  }

  ghost predicate ClausesIn(r: Graph, articleId: string, cls: seq<Clause>) {
    forall j {:trigger ClauseIn(r, articleId, cls[j])} :: 0 <= j < |cls| ==> ClauseIn(r, articleId, cls[j])
  }

  ghost predicate ArticleIn(r: Graph, art: Article, parentNode: string) {
    (parentNode, ArticleNodeId(art.articleId)) in r.edgeAttrs && ClausesIn(r, art.articleId, art.clauses)
  }

  ghost predicate ArticlesIn(r: Graph, arts: seq<Article>, parentNode: string) {
    forall i {:trigger ArticleIn(r, arts[i], parentNode)} :: 0 <= i < |arts| ==> ArticleIn(r, arts[i], parentNode)
  }

  ghost predicate SectionIn(r: Graph, chapterId: string, sec: Section) {
    var chapterNode := ChapterNodeId(chapterId);
    var sectionNode := SectionNodeId(chapterNode, sec.sectionId);
    (chapterNode, sectionNode) in r.edgeAttrs && ArticlesIn(r, sec.articles, sectionNode)
  }

  ghost predicate SectionsIn(r: Graph, chapterId: string, secs: seq<Section>) {
    forall j {:trigger SectionIn(r, chapterId, secs[j])} :: 0 <= j < |secs| ==> SectionIn(r, chapterId, secs[j])
  }

  /** A chapter's node and, below it, either its sections or (without sections) its articles. */
  ghost predicate ChapterIn(r: Graph, ch: Chapter) {
    && ChapterNodeId(ch.chapterId) in r.attrs
    && (if ch.sections != [] then SectionsIn(r, ch.chapterId, ch.sections)
        else ArticlesIn(r, ch.articles, ChapterNodeId(ch.chapterId)))
  }

  lemma ArticlesInGrows(g: Graph, r: Graph, arts: seq<Article>, parentNode: string)
    requires ArticlesIn(g, arts, parentNode) && Grows(g, r)
    ensures ArticlesIn(r, arts, parentNode)
  {
    forall i | 0 <= i < |arts| ensures ArticleIn(r, arts[i], parentNode) {
      assert ArticleIn(g, arts[i], parentNode);
      forall j | 0 <= j < |arts[i].clauses| ensures ClauseIn(r, arts[i].articleId, arts[i].clauses[j]) {
        assert ClauseIn(g, arts[i].articleId, arts[i].clauses[j]);
      }
    }
  }

  lemma ChapterInGrows(g: Graph, r: Graph, ch: Chapter)
    requires ChapterIn(g, ch) && Grows(g, r)
    ensures ChapterIn(r, ch)
  {
    if ch.sections != [] {
      forall j | 0 <= j < |ch.sections| ensures SectionIn(r, ch.chapterId, ch.sections[j]) {
        assert SectionIn(g, ch.chapterId, ch.sections[j]);
        ArticlesInGrows(g, r, ch.sections[j].articles, SectionNodeId(ChapterNodeId(ch.chapterId), ch.sections[j].sectionId));
      }
    } else {
      ArticlesInGrows(g, r, ch.articles, ChapterNodeId(ch.chapterId));
    }
  }

  /** The clauses built before a step survive it, and the step adds its own. */
  // Each fold step keeps what the earlier steps created and adds its own part.

  lemma ClausesInSnoc(g: Graph, r: Graph, articleId: string, cls: seq<Clause>)
    requires cls != [] && ClausesIn(g, articleId, cls[..|cls| - 1]) && Grows(g, r)
    requires ClauseIn(r, articleId, cls[|cls| - 1])
    ensures ClausesIn(r, articleId, cls)
  {
    ClausesInGrows(g, r, articleId, cls[..|cls| - 1]);
    forall j | 0 <= j < |cls| ensures ClauseIn(r, articleId, cls[j]) {
      if j < |cls| - 1 { assert cls[..|cls| - 1][j] == cls[j]; }
    }
  }

  lemma ArticlesInSnoc(g: Graph, r: Graph, arts: seq<Article>, parentNode: string)
    requires arts != [] && ArticlesIn(g, arts[..|arts| - 1], parentNode) && Grows(g, r)
    requires ArticleIn(r, arts[|arts| - 1], parentNode)
    ensures ArticlesIn(r, arts, parentNode)
  {
    ArticlesInGrows(g, r, arts[..|arts| - 1], parentNode);
    forall i | 0 <= i < |arts| ensures ArticleIn(r, arts[i], parentNode) {
      if i < |arts| - 1 { assert arts[..|arts| - 1][i] == arts[i]; }
    }
  }

  lemma SectionsInSnoc(g: Graph, r: Graph, chapterId: string, secs: seq<Section>)
    requires secs != [] && SectionsIn(g, chapterId, secs[..|secs| - 1]) && Grows(g, r)
    requires SectionIn(r, chapterId, secs[|secs| - 1])
    ensures SectionsIn(r, chapterId, secs)
  {
    SectionsInGrows(g, r, chapterId, secs[..|secs| - 1]);
    forall j | 0 <= j < |secs| ensures SectionIn(r, chapterId, secs[j]) {
      if j < |secs| - 1 { assert secs[..|secs| - 1][j] == secs[j]; }
    }
  }

  // Levels of the attribute dictionaries.

  /** Every point id contains "Khoản", so every point gets level 4. */
  lemma PointLevelIsFour(articleId: string, clause: string)
    ensures PointLevel(ClauseNodeId(articleId, clause)) == 4
  {
    assert ClauseNodeId(articleId, clause) == ("Điều_" + articleId + "_") + "Khoản" + ("_" + clause);
    InfixContained("Điều_" + articleId + "_", "Khoản", "_" + clause);
  }

  /** Chapter and section ids both contain "Chương", so every article gets level 1. */
  lemma ArticleLevelIsOne(chapterId: string, sectionId: Option<string>)
    ensures ArticleLevel(ChapterNodeId(chapterId)) == 1
    ensures sectionId.Some? ==> ArticleLevel(SectionNodeId(ChapterNodeId(chapterId), sectionId.value)) == 1
  {
    assert ChapterNodeId(chapterId) == "Chương" + ("_" + chapterId);
    PrefixContained("Chương", "_" + chapterId);
    if sectionId.Some? {
      var rest := "_" + chapterId + "_Mục_" + sectionId.value;
      assert SectionNodeId(ChapterNodeId(chapterId), sectionId.value) == "Chương" + rest;
      PrefixContained("Chương", rest);
    }
  }

  lemma {:induction false} MergeKeeps(g: Graph, id: string, a: Attrs)
    requires Built(g) && WellTypedAttrs(a) && TypeLevel(a) && "type" in a && "level" in a
    ensures Built(WithNode(g, id, a)) && Grows(g, WithNode(g, id, a))
  {
    WithNodeGood(g, id, a);
    if id in g.attrs {
      var m := g.attrs[id] + a;
      assert Get(m, "type") == Get(a, "type") && Get(m, "level") == Get(a, "level");
    }
  }

  lemma ContainsEdgeLevels(g: Graph, u: string, v: string)
    requires LevelsByType(g)
    ensures LevelsByType(WithEdge(g, u, v, ContainsEdge))
  {
    WithEdgeNodes(g, u, v, ContainsEdge);
  }

  lemma ContainsEdgeRelation(g: Graph, u: string, v: string)
    requires AllContains(g)
    ensures AllContains(WithEdge(g, u, v, ContainsEdge))
  {
  }

  lemma ContainsEdgeKeeps(g: Graph, u: string, v: string)
    requires Built(g)
    ensures Built(WithEdge(g, u, v, ContainsEdge))
  {
    WithEdgeGood(g, u, v, ContainsEdge);
    ContainsEdgeLevels(g, u, v);
    ContainsEdgeRelation(g, u, v);
  }

  // No loop of step 1 removes a node or an edge.

  lemma {:induction false} PointsNodesGrows(g: Graph, articleId: string, clauseId: Option<string>, chapterId: string, pts: seq<Point>)
    ensures Grows(g, PointsNodes(g, articleId, clauseId, chapterId, pts))
    decreases |pts|
  {
    if pts != [] {
      PointsNodesGrows(g, articleId, clauseId, chapterId, pts[..|pts| - 1]);
    }
  }

  lemma ClauseStepGrows(g: Graph, articleId: string, chapterId: string, parentNode: string, cl: Clause)
    ensures Grows(g, ClauseStep(g, articleId, chapterId, parentNode, cl))
  {
    PointsNodesGrows(ClauseHead(g, articleId, chapterId, parentNode, cl), articleId, cl.clauseId, chapterId, cl.points);
  }

  lemma {:induction false} ClausesNodesGrows(g: Graph, articleId: string, chapterId: string, parentNode: string, cls: seq<Clause>)
    ensures Grows(g, ClausesNodes(g, articleId, chapterId, parentNode, cls))
    decreases |cls|
  {
    if cls != [] {
      ClausesNodesGrows(g, articleId, chapterId, parentNode, cls[..|cls| - 1]);
      ClauseStepGrows(ClausesNodes(g, articleId, chapterId, parentNode, cls[..|cls| - 1]), articleId, chapterId, parentNode, cls[|cls| - 1]);
    }
  }

  lemma ArticleNodesGrows(g: Graph, art: Article, chapterId: string, parentNode: string)
    ensures Grows(g, ArticleNodes(g, art, chapterId, parentNode))
  {
    ClausesNodesGrows(ArticleHead(g, art, chapterId, parentNode), art.articleId, chapterId, parentNode, art.clauses);
  }

  lemma {:induction false} ArticlesNodesGrows(g: Graph, arts: seq<Article>, chapterId: string, parentNode: string)
    ensures Grows(g, ArticlesNodes(g, arts, chapterId, parentNode))
    decreases |arts|
  {
    if arts != [] {
      ArticlesNodesGrows(g, arts[..|arts| - 1], chapterId, parentNode);
      ArticleNodesGrows(ArticlesNodes(g, arts[..|arts| - 1], chapterId, parentNode), arts[|arts| - 1], chapterId, parentNode);
    }
  }

  lemma SectionStepGrows(g: Graph, chapterId: string, sec: Section)
    ensures Grows(g, SectionStep(g, chapterId, sec))
  {
    ArticlesNodesGrows(SectionHead(g, chapterId, sec), sec.articles, chapterId,
                       SectionNodeId(ChapterNodeId(chapterId), sec.sectionId));
  }

  lemma {:induction false} SectionsNodesGrows(g: Graph, chapterId: string, secs: seq<Section>)
    ensures Grows(g, SectionsNodes(g, chapterId, secs))
    decreases |secs|
  {
    if secs != [] {
      SectionsNodesGrows(g, chapterId, secs[..|secs| - 1]);
      SectionStepGrows(SectionsNodes(g, chapterId, secs[..|secs| - 1]), chapterId, secs[|secs| - 1]);
    }
  }

  lemma ChapterStepGrows(g: Graph, ch: Chapter)
    ensures Grows(g, ChapterStep(g, ch))
  {
    var g1 := WithNode(g, ChapterNodeId(ch.chapterId), ChapterAttrs(ch));
    SectionsNodesGrows(g1, ch.chapterId, ch.sections);
    ArticlesNodesGrows(g1, ch.articles, ch.chapterId, ChapterNodeId(ch.chapterId));
  }

  // Every loop of step 1 keeps the invariant.

  lemma PointStepBuilt(g: Graph, articleId: string, clauseId: Option<string>, chapterId: string, pt: Point)
    requires Built(g)
    ensures Built(PointStep(g, articleId, clauseId, chapterId, pt))
  {
    var pointNode := PointNodeId(articleId, RenderOpt(clauseId), pt.pointId);
    var a := PointAttrs(pt, articleId, clauseId, chapterId);
    PointLevelIsFour(articleId, RenderOpt(clauseId));
    MergeKeeps(g, pointNode, a);
    ContainsEdgeKeeps(WithNode(g, pointNode, a), ClauseNodeId(articleId, RenderOpt(clauseId)), pointNode);
  }

  lemma {:induction false} PointsNodesBuilt(g: Graph, articleId: string, clauseId: Option<string>, chapterId: string, pts: seq<Point>)
    requires Built(g)
    ensures Built(PointsNodes(g, articleId, clauseId, chapterId, pts))
    decreases |pts|
  {
    if pts != [] {
      PointsNodesBuilt(g, articleId, clauseId, chapterId, pts[..|pts| - 1]);
      PointStepBuilt(PointsNodes(g, articleId, clauseId, chapterId, pts[..|pts| - 1]), articleId, clauseId, chapterId, pts[|pts| - 1]);
    }
  }

  lemma ClauseStepBuilt(g: Graph, articleId: string, chapterId: string, parentNode: string, cl: Clause)
    requires Built(g)
    ensures Built(ClauseStep(g, articleId, chapterId, parentNode, cl))
  {
    var clauseNode := ClauseNodeId(articleId, RenderOpt(cl.clauseId));
    var a := ClauseAttrs(cl, articleId, chapterId, parentNode);
    MergeKeeps(g, clauseNode, a);
    ContainsEdgeKeeps(WithNode(g, clauseNode, a), ArticleNodeId(articleId), clauseNode);
    PointsNodesBuilt(ClauseHead(g, articleId, chapterId, parentNode, cl), articleId, cl.clauseId, chapterId, cl.points);
  }

  lemma {:induction false} ClausesNodesBuilt(g: Graph, articleId: string, chapterId: string, parentNode: string, cls: seq<Clause>)
    requires Built(g)
    ensures Built(ClausesNodes(g, articleId, chapterId, parentNode, cls))
    decreases |cls|
  {
    if cls != [] {
      ClausesNodesBuilt(g, articleId, chapterId, parentNode, cls[..|cls| - 1]);
      ClauseStepBuilt(ClausesNodes(g, articleId, chapterId, parentNode, cls[..|cls| - 1]), articleId, chapterId, parentNode, cls[|cls| - 1]);
    }
  }

  /** `add_article_nodes` under a chapter or section keeps the invariant. */
  lemma ArticleNodesBuilt(g: Graph, art: Article, chapterId: string, parentNode: string)
    requires Built(g) && Contains(parentNode, "Chương")
    ensures Built(ArticleNodes(g, art, chapterId, parentNode))
  {
    var articleNode := ArticleNodeId(art.articleId);
    var a := ArticleAttrs(art, chapterId, parentNode);
    MergeKeeps(g, articleNode, a);
    ContainsEdgeKeeps(WithNode(g, articleNode, a), parentNode, articleNode);
    ClausesNodesBuilt(ArticleHead(g, art, chapterId, parentNode), art.articleId, chapterId, parentNode, art.clauses);
  }

  lemma {:induction false} ArticlesNodesBuilt(g: Graph, arts: seq<Article>, chapterId: string, parentNode: string)
    requires Built(g) && Contains(parentNode, "Chương")
    ensures Built(ArticlesNodes(g, arts, chapterId, parentNode))
    decreases |arts|
  {
    if arts != [] {
      ArticlesNodesBuilt(g, arts[..|arts| - 1], chapterId, parentNode);
      ArticleNodesBuilt(ArticlesNodes(g, arts[..|arts| - 1], chapterId, parentNode), arts[|arts| - 1], chapterId, parentNode);
    }
  }

  lemma SectionStepBuilt(g: Graph, chapterId: string, sec: Section)
    requires Built(g)
    ensures Built(SectionStep(g, chapterId, sec))
  {
    var chapterNode := ChapterNodeId(chapterId);
    var sectionNode := SectionNodeId(chapterNode, sec.sectionId);
    var a := SectionAttrs(sec, chapterId);
    MergeKeeps(g, sectionNode, a);
    ContainsEdgeKeeps(WithNode(g, sectionNode, a), chapterNode, sectionNode);
    ArticleLevelIsOne(chapterId, Some(sec.sectionId));
    ArticlesNodesBuilt(SectionHead(g, chapterId, sec), sec.articles, chapterId, sectionNode);
  }

  lemma {:induction false} SectionsNodesBuilt(g: Graph, chapterId: string, secs: seq<Section>)
    requires Built(g)
    ensures Built(SectionsNodes(g, chapterId, secs))
    decreases |secs|
  {
    if secs != [] {
      SectionsNodesBuilt(g, chapterId, secs[..|secs| - 1]);
      SectionStepBuilt(SectionsNodes(g, chapterId, secs[..|secs| - 1]), chapterId, secs[|secs| - 1]);
    }
  }

  lemma ChapterStepBuilt(g: Graph, ch: Chapter)
    requires Built(g)
    ensures Built(ChapterStep(g, ch))
  {
    var chapterNode := ChapterNodeId(ch.chapterId);
    MergeKeeps(g, chapterNode, ChapterAttrs(ch));
    var g1 := WithNode(g, chapterNode, ChapterAttrs(ch));
    if ch.sections != [] {
      SectionsNodesBuilt(g1, ch.chapterId, ch.sections);
    } else {
      ArticleLevelIsOne(ch.chapterId, None);
      ArticlesNodesBuilt(g1, ch.articles, ch.chapterId, chapterNode);
    }
  }

  /** Step 1 of the build keeps the graph's invariant: every level is the one its
      type gets, and every edge is a containment edge. */
  lemma {:induction false} ChaptersNodesBuilt(g: Graph, chs: Corpus)
    requires Built(g)
    ensures Built(ChaptersNodes(g, chs))
    decreases |chs|
  {
    if chs != [] {
      ChaptersNodesBuilt(g, chs[..|chs| - 1]);
      ChapterStepBuilt(ChaptersNodes(g, chs[..|chs| - 1]), chs[|chs| - 1]);
    }
  }

  // Every loop of step 1 creates its containment edges.

  lemma {:induction false} PointsNodesCreate(g: Graph, articleId: string, clauseId: Option<string>, chapterId: string, pts: seq<Point>)
    ensures PointsIn(PointsNodes(g, articleId, clauseId, chapterId, pts), articleId, clauseId, pts)
    decreases |pts|
  {
    if pts != [] {
      var init, last := pts[..|pts| - 1], pts[|pts| - 1];
      PointsNodesCreate(g, articleId, clauseId, chapterId, init);
      var mid := PointsNodes(g, articleId, clauseId, chapterId, init);
      var r := PointStep(mid, articleId, clauseId, chapterId, last);
      assert PointsNodes(g, articleId, clauseId, chapterId, pts) == r;
      var clauseNode := ClauseNodeId(articleId, RenderOpt(clauseId));
      forall q | 0 <= q < |pts|
        ensures (clauseNode, PointNodeId(articleId, RenderOpt(clauseId), pts[q].pointId)) in r.edgeAttrs
      {
        if q < |init| {
          assert init[q] == pts[q];
          assert (clauseNode, PointNodeId(articleId, RenderOpt(clauseId), init[q].pointId)) in mid.edgeAttrs;
        }
      }
    }
  }

  lemma ClauseStepCreates(g: Graph, articleId: string, chapterId: string, parentNode: string, cl: Clause)
    ensures ClauseIn(ClauseStep(g, articleId, chapterId, parentNode, cl), articleId, cl)
  {
    var head := ClauseHead(g, articleId, chapterId, parentNode, cl);
    PointsNodesGrows(head, articleId, cl.clauseId, chapterId, cl.points);
    PointsNodesCreate(head, articleId, cl.clauseId, chapterId, cl.points);
  }

  lemma ClausesInGrows(g: Graph, r: Graph, articleId: string, cls: seq<Clause>)
    requires ClausesIn(g, articleId, cls) && Grows(g, r)
    ensures ClausesIn(r, articleId, cls)
  {
    forall j | 0 <= j < |cls| ensures ClauseIn(r, articleId, cls[j]) {
      assert ClauseIn(g, articleId, cls[j]);
    }
  }

  lemma {:induction false} ClausesNodesCreate(g: Graph, articleId: string, chapterId: string, parentNode: string, cls: seq<Clause>)
    ensures ClausesIn(ClausesNodes(g, articleId, chapterId, parentNode, cls), articleId, cls)
    decreases |cls|
  {
    if cls != [] {
      var init := cls[..|cls| - 1];
      ClausesNodesCreate(g, articleId, chapterId, parentNode, init);
      var mid := ClausesNodes(g, articleId, chapterId, parentNode, init);
      var r := ClauseStep(mid, articleId, chapterId, parentNode, cls[|cls| - 1]);
      ClauseStepCreates(mid, articleId, chapterId, parentNode, cls[|cls| - 1]);
      ClauseStepGrows(mid, articleId, chapterId, parentNode, cls[|cls| - 1]);
      ClausesInSnoc(mid, r, articleId, cls);
    }
  }

  lemma ArticleNodesCreate(g: Graph, art: Article, chapterId: string, parentNode: string)
    ensures ArticleIn(ArticleNodes(g, art, chapterId, parentNode), art, parentNode)
  {
    var head := ArticleHead(g, art, chapterId, parentNode);
    ClausesNodesGrows(head, art.articleId, chapterId, parentNode, art.clauses);
    ClausesNodesCreate(head, art.articleId, chapterId, parentNode, art.clauses);
  }

  lemma {:induction false} ArticlesNodesCreate(g: Graph, arts: seq<Article>, chapterId: string, parentNode: string)
    ensures ArticlesIn(ArticlesNodes(g, arts, chapterId, parentNode), arts, parentNode)
    decreases |arts|
  {
    if arts != [] {
      var init := arts[..|arts| - 1];
      ArticlesNodesCreate(g, init, chapterId, parentNode);
      var mid := ArticlesNodes(g, init, chapterId, parentNode);
      var r := ArticleNodes(mid, arts[|arts| - 1], chapterId, parentNode);
      ArticleNodesCreate(mid, arts[|arts| - 1], chapterId, parentNode);
      ArticleNodesGrows(mid, arts[|arts| - 1], chapterId, parentNode);
      ArticlesInSnoc(mid, r, arts, parentNode);
    }
  }

  lemma SectionStepCreates(g: Graph, chapterId: string, sec: Section)
    ensures SectionIn(SectionStep(g, chapterId, sec), chapterId, sec)
  {
    var head := SectionHead(g, chapterId, sec);
    var sectionNode := SectionNodeId(ChapterNodeId(chapterId), sec.sectionId);
    ArticlesNodesGrows(head, sec.articles, chapterId, sectionNode);
    ArticlesNodesCreate(head, sec.articles, chapterId, sectionNode);
  }

  lemma SectionsInGrows(g: Graph, r: Graph, chapterId: string, secs: seq<Section>)
    requires SectionsIn(g, chapterId, secs) && Grows(g, r)
    ensures SectionsIn(r, chapterId, secs)
  {
    forall j | 0 <= j < |secs| ensures SectionIn(r, chapterId, secs[j]) {
      assert SectionIn(g, chapterId, secs[j]);
      ArticlesInGrows(g, r, secs[j].articles, SectionNodeId(ChapterNodeId(chapterId), secs[j].sectionId));
    }
  }

  lemma {:induction false} SectionsNodesCreate(g: Graph, chapterId: string, secs: seq<Section>)
    ensures SectionsIn(SectionsNodes(g, chapterId, secs), chapterId, secs)
    decreases |secs|
  {
    if secs != [] {
      var init := secs[..|secs| - 1];
      SectionsNodesCreate(g, chapterId, init);
      var mid := SectionsNodes(g, chapterId, init);
      var r := SectionStep(mid, chapterId, secs[|secs| - 1]);
      SectionStepCreates(mid, chapterId, secs[|secs| - 1]);
      SectionStepGrows(mid, chapterId, secs[|secs| - 1]);
      SectionsInSnoc(mid, r, chapterId, secs);
    }
  }

  lemma ChapterStepCreates(g: Graph, ch: Chapter)
    ensures ChapterIn(ChapterStep(g, ch), ch)
  {
    var chapterNode := ChapterNodeId(ch.chapterId);
    var g1 := WithNode(g, chapterNode, ChapterAttrs(ch));
    if ch.sections != [] {
      SectionsNodesGrows(g1, ch.chapterId, ch.sections);
      SectionsNodesCreate(g1, ch.chapterId, ch.sections);
    } else {
      ArticlesNodesGrows(g1, ch.articles, ch.chapterId, chapterNode);
      ArticlesNodesCreate(g1, ch.articles, ch.chapterId, chapterNode);
    }
  }

  /** Step 1 loses nothing already in the graph and creates, for every chapter, its
      node and the containment edges of its sections or direct articles, their
      clauses and their points. */
  lemma {:induction false} ChaptersNodesCreate(g: Graph, chs: Corpus)
    ensures Grows(g, ChaptersNodes(g, chs))
    ensures forall i :: 0 <= i < |chs| ==> ChapterIn(ChaptersNodes(g, chs), chs[i])
    decreases |chs|
  {
    if chs != [] {
      var init := chs[..|chs| - 1];
      ChaptersNodesCreate(g, init);
      var mid := ChaptersNodes(g, init);
      var r := ChapterStep(mid, chs[|chs| - 1]);
      ChapterStepCreates(mid, chs[|chs| - 1]);
      ChapterStepGrows(mid, chs[|chs| - 1]);
      ChaptersInSnoc(mid, r, init, chs);
    }
  }

  lemma ChaptersInSnoc(g: Graph, r: Graph, init: Corpus, chs: Corpus)
    requires chs != [] && init == chs[..|chs| - 1]
    requires (forall i :: 0 <= i < |init| ==> ChapterIn(g, init[i])) && Grows(g, r) && ChapterIn(r, chs[|chs| - 1])
    ensures forall i :: 0 <= i < |chs| ==> ChapterIn(r, chs[i])
  {
    forall i | 0 <= i < |chs| ensures ChapterIn(r, chs[i]) {
      if i < |init| {
        assert init[i] == chs[i];
        ChapterInGrows(g, r, chs[i]);
      }
    }
  }

  /** The elif: a chapter with sections ignores its own article list. */
  lemma ChapterArticlesIgnored(g: Graph, ch: Chapter)
    requires ch.sections != []
    ensures ChapterStep(g, ch) == ChapterStep(g, ch.(articles := []))
  {
  }

  // ---------------------------------------------------------------------------
  // What step 1 creates and nothing more: the `(parent, child)` pairs of the corpus
  // in the order the builder adds their edges.

  function PointPairs(articleId: string, clauseId: Option<string>, pts: seq<Point>): seq<(string, string)>
    decreases |pts|
  {
    if pts == [] then []
    else PointPairs(articleId, clauseId, pts[..|pts| - 1])
         + [(ClauseNodeId(articleId, RenderOpt(clauseId)), PointNodeId(articleId, RenderOpt(clauseId), pts[|pts| - 1].pointId))]
  }

  function ClausePairs(articleId: string, cl: Clause): seq<(string, string)> {
    [(ArticleNodeId(articleId), ClauseNodeId(articleId, RenderOpt(cl.clauseId)))] + PointPairs(articleId, cl.clauseId, cl.points)
  }

  function ClausesPairs(articleId: string, cls: seq<Clause>): seq<(string, string)>
    decreases |cls|
  {
    if cls == [] then [] else ClausesPairs(articleId, cls[..|cls| - 1]) + ClausePairs(articleId, cls[|cls| - 1])
  }

  function ArticlePairs(art: Article, parentNode: string): seq<(string, string)> {
    [(parentNode, ArticleNodeId(art.articleId))] + ClausesPairs(art.articleId, art.clauses)
  }

  function ArticlesPairs(arts: seq<Article>, parentNode: string): seq<(string, string)>
    decreases |arts|
  {
    if arts == [] then [] else ArticlesPairs(arts[..|arts| - 1], parentNode) + ArticlePairs(arts[|arts| - 1], parentNode)
  }

  function SectionPairs(chapterId: string, sec: Section): seq<(string, string)> {
    var chapterNode := ChapterNodeId(chapterId);
    var sectionNode := SectionNodeId(chapterNode, sec.sectionId);
    [(chapterNode, sectionNode)] + ArticlesPairs(sec.articles, sectionNode)
  }

  function SectionsPairs(chapterId: string, secs: seq<Section>): seq<(string, string)>
    decreases |secs|
  {
    if secs == [] then [] else SectionsPairs(chapterId, secs[..|secs| - 1]) + SectionPairs(chapterId, secs[|secs| - 1])
  }

  /** A chapter's pairs: those of its sections or, without sections, of its articles. */
  function ChapterPairs(ch: Chapter): seq<(string, string)> {
    if ch.sections != [] then SectionsPairs(ch.chapterId, ch.sections)
    else ArticlesPairs(ch.articles, ChapterNodeId(ch.chapterId))
  }

  function ChaptersPairs(chs: Corpus): seq<(string, string)>
    decreases |chs|
  {
    if chs == [] then [] else ChaptersPairs(chs[..|chs| - 1]) + ChapterPairs(chs[|chs| - 1])
  }

  /** The chapter node ids of the corpus. */
  function ChapterNodeIds(chs: Corpus): seq<string>
    decreases |chs|
  {
    if chs == [] then [] else ChapterNodeIds(chs[..|chs| - 1]) + [ChapterNodeId(chs[|chs| - 1].chapterId)]
  }

  /** The child of every pair. */
  function Kids(ps: seq<(string, string)>): (r: seq<string>)
    ensures |r| == |ps| && forall i :: 0 <= i < |ps| ==> r[i] == ps[i].1
  {
    seq(|ps|, i requires 0 <= i < |ps| => ps[i].1)
  }

  lemma KidsAppend(a: seq<(string, string)>, b: seq<(string, string)>)
    ensures Kids(a + b) == Kids(a) + Kids(b)
  {
  }

  /** `r` is `g` with exactly the edges `ps` and their children added. */
  ghost predicate Adds(g: Graph, r: Graph, ps: seq<(string, string)>) {
    && (forall e :: e in r.edgeAttrs <==> e in g.edgeAttrs || e in ps)
    && (forall id :: id in r.attrs <==> id in g.attrs || id in Kids(ps))
  }

  lemma AddsNothing(g: Graph)
    ensures Adds(g, g, [])
  {
  }

  lemma AddsTrans(g: Graph, m: Graph, r: Graph, a: seq<(string, string)>, b: seq<(string, string)>)
    requires Adds(g, m, a) && Adds(m, r, b)
    ensures Adds(g, r, a + b)
  {
    KidsAppend(a, b);
  }

  /** A node and its edge from a parent already in the graph. */
  lemma AddsChild(g: Graph, parent: string, kid: string, a: Attrs)
    requires parent in g.attrs
    ensures Adds(g, WithEdge(WithNode(g, kid, a), parent, kid, ContainsEdge), [(parent, kid)])
  {
    var h := WithNode(g, kid, a);
    assert Kids([(parent, kid)]) == [kid];
    WithEdgeNodes(h, parent, kid, ContainsEdge);
  }

  lemma {:induction false} PointsNodesAdds(g: Graph, articleId: string, clauseId: Option<string>, chapterId: string, pts: seq<Point>)
    requires ClauseNodeId(articleId, RenderOpt(clauseId)) in g.attrs
    ensures Adds(g, PointsNodes(g, articleId, clauseId, chapterId, pts), PointPairs(articleId, clauseId, pts))
    decreases |pts|
  {
    if pts == [] {
      AddsNothing(g);
    } else {
      var init, pt := pts[..|pts| - 1], pts[|pts| - 1];
      PointsNodesAdds(g, articleId, clauseId, chapterId, init);
      var mid := PointsNodes(g, articleId, clauseId, chapterId, init);
      AddsChild(mid, ClauseNodeId(articleId, RenderOpt(clauseId)), PointNodeId(articleId, RenderOpt(clauseId), pt.pointId),
                PointAttrs(pt, articleId, clauseId, chapterId));
      AddsTrans(g, mid, PointsNodes(g, articleId, clauseId, chapterId, pts), PointPairs(articleId, clauseId, init),
                [(ClauseNodeId(articleId, RenderOpt(clauseId)), PointNodeId(articleId, RenderOpt(clauseId), pt.pointId))]);
    }
  }

  lemma ClauseStepAdds(g: Graph, articleId: string, chapterId: string, parentNode: string, cl: Clause)
    requires ArticleNodeId(articleId) in g.attrs
    ensures Adds(g, ClauseStep(g, articleId, chapterId, parentNode, cl), ClausePairs(articleId, cl))
  {
    var clauseNode := ClauseNodeId(articleId, RenderOpt(cl.clauseId));
    var head := ClauseHead(g, articleId, chapterId, parentNode, cl);
    AddsChild(g, ArticleNodeId(articleId), clauseNode, ClauseAttrs(cl, articleId, chapterId, parentNode));
    assert clauseNode in head.attrs;
    PointsNodesAdds(head, articleId, cl.clauseId, chapterId, cl.points);
    AddsTrans(g, head, ClauseStep(g, articleId, chapterId, parentNode, cl), [(ArticleNodeId(articleId), clauseNode)],
              PointPairs(articleId, cl.clauseId, cl.points));
  }

  lemma {:induction false} ClausesNodesAdds(g: Graph, articleId: string, chapterId: string, parentNode: string, cls: seq<Clause>)
    requires ArticleNodeId(articleId) in g.attrs
    ensures Adds(g, ClausesNodes(g, articleId, chapterId, parentNode, cls), ClausesPairs(articleId, cls))
    decreases |cls|
  {
    if cls == [] {
      AddsNothing(g);
    } else {
      var init := cls[..|cls| - 1];
      ClausesNodesAdds(g, articleId, chapterId, parentNode, init);
      var mid := ClausesNodes(g, articleId, chapterId, parentNode, init);
      ClauseStepAdds(mid, articleId, chapterId, parentNode, cls[|cls| - 1]);
      AddsTrans(g, mid, ClausesNodes(g, articleId, chapterId, parentNode, cls), ClausesPairs(articleId, init),
                ClausePairs(articleId, cls[|cls| - 1]));
    }
  }

  lemma ArticleNodesAdds(g: Graph, art: Article, chapterId: string, parentNode: string)
    requires parentNode in g.attrs
    ensures Adds(g, ArticleNodes(g, art, chapterId, parentNode), ArticlePairs(art, parentNode))
  {
    var articleNode := ArticleNodeId(art.articleId);
    var head := ArticleHead(g, art, chapterId, parentNode);
    AddsChild(g, parentNode, articleNode, ArticleAttrs(art, chapterId, parentNode));
    assert articleNode in head.attrs;
    ClausesNodesAdds(head, art.articleId, chapterId, parentNode, art.clauses);
    AddsTrans(g, head, ArticleNodes(g, art, chapterId, parentNode), [(parentNode, articleNode)],
              ClausesPairs(art.articleId, art.clauses));
  }

  lemma {:induction false} ArticlesNodesAdds(g: Graph, arts: seq<Article>, chapterId: string, parentNode: string)
    requires parentNode in g.attrs
    ensures Adds(g, ArticlesNodes(g, arts, chapterId, parentNode), ArticlesPairs(arts, parentNode))
    decreases |arts|
  {
    if arts == [] {
      AddsNothing(g);
    } else {
      var init := arts[..|arts| - 1];
      ArticlesNodesAdds(g, init, chapterId, parentNode);
      var mid := ArticlesNodes(g, init, chapterId, parentNode);
      ArticleNodesAdds(mid, arts[|arts| - 1], chapterId, parentNode);
      AddsTrans(g, mid, ArticlesNodes(g, arts, chapterId, parentNode), ArticlesPairs(init, parentNode),
                ArticlePairs(arts[|arts| - 1], parentNode));
    }
  }

  lemma SectionStepAdds(g: Graph, chapterId: string, sec: Section)
    requires ChapterNodeId(chapterId) in g.attrs
    ensures Adds(g, SectionStep(g, chapterId, sec), SectionPairs(chapterId, sec))
  {
    var chapterNode := ChapterNodeId(chapterId);
    var sectionNode := SectionNodeId(chapterNode, sec.sectionId);
    var head := SectionHead(g, chapterId, sec);
    AddsChild(g, chapterNode, sectionNode, SectionAttrs(sec, chapterId));
    assert sectionNode in head.attrs;
    ArticlesNodesAdds(head, sec.articles, chapterId, sectionNode);
    AddsTrans(g, head, SectionStep(g, chapterId, sec), [(chapterNode, sectionNode)], ArticlesPairs(sec.articles, sectionNode));
  }

  lemma {:induction false} SectionsNodesAdds(g: Graph, chapterId: string, secs: seq<Section>)
    requires ChapterNodeId(chapterId) in g.attrs
    ensures Adds(g, SectionsNodes(g, chapterId, secs), SectionsPairs(chapterId, secs))
    decreases |secs|
  {
    if secs == [] {
      AddsNothing(g);
    } else {
      var init := secs[..|secs| - 1];
      SectionsNodesAdds(g, chapterId, init);
      var mid := SectionsNodes(g, chapterId, init);
      SectionStepAdds(mid, chapterId, secs[|secs| - 1]);
      AddsTrans(g, mid, SectionsNodes(g, chapterId, secs), SectionsPairs(chapterId, init), SectionPairs(chapterId, secs[|secs| - 1]));
    }
  }

  /** One chapter adds its node, then exactly its pairs. */
  lemma ChapterStepAdds(g: Graph, ch: Chapter)
    ensures Adds(WithNode(g, ChapterNodeId(ch.chapterId), ChapterAttrs(ch)), ChapterStep(g, ch), ChapterPairs(ch))
  {
    var g1 := WithNode(g, ChapterNodeId(ch.chapterId), ChapterAttrs(ch));
    if ch.sections != [] {
      SectionsNodesAdds(g1, ch.chapterId, ch.sections);
    } else if ch.articles != [] {
      ArticlesNodesAdds(g1, ch.articles, ch.chapterId, ChapterNodeId(ch.chapterId));
    } else {
      assert ChapterPairs(ch) == [];
    }
  }

  /** Step 1 adds to `g` exactly the corpus pairs as edges, and as nodes exactly the
      chapter nodes and the children of the pairs. */
  lemma {:induction false} ChaptersNodesAdds(g: Graph, chs: Corpus)
    ensures var r := ChaptersNodes(g, chs);
      && (forall e :: e in r.edgeAttrs <==> e in g.edgeAttrs || e in ChaptersPairs(chs))
      && (forall id :: id in r.attrs <==> id in g.attrs || id in ChapterNodeIds(chs) || id in Kids(ChaptersPairs(chs)))
    decreases |chs|
  {
    if chs != [] {
      var init, ch := chs[..|chs| - 1], chs[|chs| - 1];
      ChaptersNodesAdds(g, init);
      var mid := ChaptersNodes(g, init);
      ChapterStepAdds(mid, ch);
      KidsAppend(ChaptersPairs(init), ChapterPairs(ch));
    }
  }

  /** The converse of `ChaptersNodesCreate`: starting from the empty graph, every edge
      is a `contains` edge of a corpus pair and every node is a chapter node or the
      child of a pair; when no id is the child of two pairs, each child has exactly one
      containing parent, the one of its pair, and a node that is no child has none. */
  lemma ChaptersNodesExactly(chs: Corpus)
    ensures var r := ChaptersNodes(Empty, chs);
      var ps := ChaptersPairs(chs);
      && (forall e :: e in r.edgeAttrs <==> e in ps)
      && (forall e :: e in r.edgeAttrs ==> Get(r.edgeAttrs[e], "relation") == Str("contains"))
      && (forall id :: id in r.attrs <==> id in ChapterNodeIds(chs) || id in Kids(ps))
      && (forall u, w :: (u, w) in r.edgeAttrs ==> w in Kids(ps))
      && (Sorting.Distinct(Kids(ps)) ==> forall i, u :: 0 <= i < |ps| && (u, ps[i].1) in r.edgeAttrs ==> u == ps[i].0)
  {
    ChaptersNodesAdds(Empty, chs);
    assert Empty.edgeAttrs == map[] && Empty.attrs == map[];
    ChaptersNodesContain(chs);
    EdgesArePairs(ChaptersNodes(Empty, chs), ChaptersPairs(chs));
  }

  lemma ChaptersNodesContain(chs: Corpus)
    ensures AllContains(ChaptersNodes(Empty, chs))
  {
    assert Built(Empty);
    ChaptersNodesBuilt(Empty, chs);
  }

  /** In a graph whose edges are exactly `ps`, every edge ends at a child of a pair, and
      with distinct children each child's only incoming edge is its pair. */
  lemma EdgesArePairs(r: Graph, ps: seq<(string, string)>)
    requires forall e :: e in r.edgeAttrs <==> e in ps
    ensures forall u, w :: (u, w) in r.edgeAttrs ==> w in Kids(ps)
    ensures Sorting.Distinct(Kids(ps)) ==> forall i, u :: 0 <= i < |ps| && (u, ps[i].1) in r.edgeAttrs ==> u == ps[i].0
  {
    forall u, w | (u, w) in r.edgeAttrs ensures w in Kids(ps) {
      var j :| 0 <= j < |ps| && ps[j] == (u, w);
      assert Kids(ps)[j] == w;
    }
    if Sorting.Distinct(Kids(ps)) {
      forall i, u | 0 <= i < |ps| && (u, ps[i].1) in r.edgeAttrs ensures u == ps[i].0 {
        var j :| 0 <= j < |ps| && ps[j] == (u, ps[i].1);
        assert Kids(ps)[j] == Kids(ps)[i];
      }
    }
  }
}
