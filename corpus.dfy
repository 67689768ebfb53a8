/** The statute corpus as the engine reads it (chapters, sections, articles, clauses,
    points and citation records), the node ids derived from it and the attribute
    dictionaries the hierarchy builder stores on each node. */
module Corpus {
  import opened PyValues

  /** A value in a citation's `article` or `clause` slot: JSON null, or any other
      value by the text an f-string renders it as (the relative marker is `Id("current")`). */
  datatype Cite = Id(s: string) | Null

  /** A citation's `target` record. `clauses` and `points` are `Some` exactly when the
      key holds a list, `clause` is `Some` exactly when the key is present (possibly
      holding null), `point` is `Some` exactly when the key holds a string, and `article`
      is `None` when the key is missing. */
  datatype Target = Target(
    article: Option<Cite>,
    clauses: Option<seq<Cite>>,
    clause: Option<Cite>,
    point: Option<string>,
    points: Option<seq<string>>)

  /** A citation record `{text, target}`; a missing `text` is the empty string. */
  datatype Citation = Citation(text: string, target: Target)

  datatype Point = Point(pointId: string, text: string, references: seq<Citation>)

  /** A clause; its id may be JSON null, which node ids render as `None`. */
  datatype Clause = Clause(clauseId: Option<string>, text: string, references: seq<Citation>, points: seq<Point>)

  /** An article; a missing `title` is the empty string. */
  datatype Article = Article(articleId: string, title: string, clauses: seq<Clause>)

  datatype Section = Section(sectionId: string, title: string, articles: seq<Article>)

  /** A chapter; a missing `sections` or `articles` list is the empty list. */
  datatype Chapter = Chapter(chapterId: string, title: string, sections: seq<Section>, articles: seq<Article>)

  type Corpus = seq<Chapter>

  // Node ids, composed from the ancestors' ids.

  function ChapterNodeId(chapterId: string): string {
    "Chương_" + chapterId
  }

  function SectionNodeId(chapterNode: string, sectionId: string): string {
    chapterNode + "_Mục_" + sectionId
  }

  function ArticleNodeId(articleId: string): string {
    "Điều_" + articleId
  }

  /** `f"{ArticleNodeId(a)}_Khoản_{k}"` for an already rendered clause id `k`. */
  function ClauseNodeId(articleId: string, clause: string): string {
    ArticleNodeId(articleId) + "_Khoản_" + clause
  }

  function PointNodeId(articleId: string, clause: string, pointId: string): string {
    ClauseNodeId(articleId, clause) + "_Điểm_" + pointId
  }

  /** The attribute value stored for a clause id (None for null). */
  function ClauseIdValue(k: Option<string>): Value {
    match k
    case Some(s) => Str(s)
    case None => Nil
  }

  const ContainsEdge: Attrs := map["relation" := Str("contains")]

  function ChapterAttrs(ch: Chapter): Attrs {
    map["text" := Str(ch.title), "title" := Str(ch.title), "type" := Str("chapter"),
        "chapter_id" := Str(ch.chapterId), "level" := Int(0)]
  }

  function SectionAttrs(sec: Section, chapterId: string): Attrs {
    map["text" := Str(sec.title), "title" := Str("Mục " + sec.sectionId + ": " + sec.title),
        "type" := Str("section"), "section_id" := Str(sec.sectionId),
        "chapter_id" := Str(chapterId), "level" := Int(1)]
  }

  /** `1 if "Chương" in parent_node_id else 2`. */
  function ArticleLevel(parentNode: string): int {
    if Contains(parentNode, "Chương") then 1 else 2
  }

  function ArticleAttrs(art: Article, chapterId: string, parentNode: string): Attrs {
    map["text" := Str(art.title), "title" := Str("Điều " + art.articleId + ": " + art.title),
        "type" := Str("article"), "article_id" := Str(art.articleId),
        "chapter_id" := Str(chapterId), "level" := Int(ArticleLevel(parentNode))]
  }

  /** `3 if "Điều" in parent_node_id else 4`, where the parent is the article's parent. */
  function ClauseLevel(parentNode: string): int {
    if Contains(parentNode, "Điều") then 3 else 4
  }

  function ClauseAttrs(cl: Clause, articleId: string, chapterId: string, parentNode: string): Attrs {
    map["text" := Str(cl.text),
        "title" := Str("Điều " + articleId + " - Khoản " + RenderOpt(cl.clauseId)),
        "type" := Str("clause"), "article_id" := Str(articleId),
        "clause_id" := ClauseIdValue(cl.clauseId), "chapter_id" := Str(chapterId),
        "level" := Int(ClauseLevel(parentNode))]
  }

  /** `4 if "Khoản" in clause_node_id else 5`. */
  function PointLevel(clauseNode: string): int {
    if Contains(clauseNode, "Khoản") then 4 else 5
  }

  function PointAttrs(pt: Point, articleId: string, clauseId: Option<string>, chapterId: string): Attrs {
    map["text" := Str(pt.text),
        "title" := Str("Điều " + articleId + " - Khoản " + RenderOpt(clauseId) + " - Điểm " + pt.pointId),
        "type" := Str("point"), "article_id" := Str(articleId),
        "clause_id" := ClauseIdValue(clauseId), "point_id" := Str(pt.pointId),
        "chapter_id" := Str(chapterId),
        "level" := Int(PointLevel(ClauseNodeId(articleId, RenderOpt(clauseId))))]
  }
}
