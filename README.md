# GraphRAG statute retrieval, modelled in Dafny

This project models the retrieval core of a legal question-answering backend. The backend
turns a Vietnamese housing statute into a directed graph. The statute is a corpus of
chapters (`Chương`), sections (`Mục`), articles (`Điều`), clauses (`Khoản`) and points
(`Điểm`), and each clause or point can cite others. The core then answers a question in four
steps:

- it re-ranks the vector store's hits by similarity and node type;
- it expands each hit breadth-first through the graph;
- it formats the resulting records into a context text;
- it builds the prompt for the answering model.

The code comes in two near-identical variants:

- `backend/graphrag_server.py`, class `ImprovedGraphRAG`;
- `backend/services/graphrag_service_improved.py`, class `ImprovedGraphRAGService`.

The model covers both. `DiGraphs.Variant` (`Server` | `Service`) selects the variant
wherever the two differ.

Modules, in dependency order:

- **PyValues**: a dynamically typed attribute value (`Str`, `Int`, `Nil`), Python truthiness, `str` rendering, `" ".join`, `isspace`/`strip` blankness, `capitalize` and `lower`.
- **Sorting**: a stable insertion sort by a key (Python's `sort(key=…)`) with its correctness and stability lemmas, and `map`/filter helpers.
- **DiGraphs**: the networkx `DiGraph` the source uses, in two forms:
  - a pure `Graph` value with `WithNode`/`WithEdge` (attribute dictionaries merge on re-add, one dictionary per ordered pair);
  - a `DiGraph` class whose `AddNode`/`AddEdge` are proved to match `WithNode`/`WithEdge`.
- **Corpus**: the typed statute records, the composite node ids (for example `Điều_5_Khoản_2_Điểm_a`) and the level a node gets.
- **Hierarchy**: step 1 of `build_improved_graph` together with `add_article_nodes`, as folds and as loops over the class.
- **References**: `resolve_reference`, covering:
  - the `"current"` / null cite rules;
  - the clause and point candidates;
  - the article fallback;
  - the `references` edges.
- **Build**: step 2 (reference resolution over every clause and point) and the whole build.
- **Embedding**: the node records of `create_embeddings`:
  - the embedding text, made of title, content, hierarchy labels, references and containers;
  - the blank-text skip;
  - the metadata with its defaults.
- **Ranking**: the scoring of `semantic_search`:
  - `0.7 · 1/(1+distance) + 0.3 · importance(type)`;
  - the stable sort by descending score;
  - the `top_k` cut.
- **Context**: `get_graph_context`, the bounded breadth-first expansion:
  - the shared `visited` set;
  - neighbours in the order reference targets, then children, then parents;
  - the sort by (depth, level).
- **Format**: `format_context_nodes`, with depth headers and indented record lines.
- **Query**: the non-model part of `query`:
  - the not-found sentinel;
  - expansion of every hit;
  - the de-duplication;
  - the sort;
  - the formatted context;
  - the user prompt;
  - the returned items.
- **Variants**: proof that the server's extra "not already queued" filter in `get_graph_context` does not change the result.

In several places the code's own comments or conditional expressions suggest behaviour
that the code does not have. The model follows the code, and proves each case:

- Levels do not strictly increase from parent to child, although the level expressions at `backend/graphrag_server.py:180`, `:199` and `:219` are written as if they did.
  - An article is always level 1, even under a section, which is also level 1 (`Hierarchy.ArticleLevelIsOne`).
  - A point is always level 4 (`Hierarchy.PointLevelIsFour`).
  - A clause is level 3 when the parent id of its article contains `Điều`, and level 4 otherwise. That parent id is a chapter id (`Chương_…`) or a section id (`Chương_…_Mục_…`), so it contains `Điều` only when the corpus's own chapter or section id does. A clause is therefore normally level 4, the same as its points (`Corpus.ClauseLevel`, `Hierarchy.TypeLevel`).
- A clause that cites one of its own points overwrites that point's `contains` edge with a `references` edge. The graph keeps one attribute dictionary per node pair (`References.OwnPointLosesParent`).
- For a chapter that has both sections and direct articles:
  - step 1 builds the nodes of the sections only, as the comment "if no sections" at `backend/graphrag_server.py:128` says (`Hierarchy.ChapterArticlesIgnored`);
  - step 2 still resolves the citations of the direct articles. It does so only when their clauses' nodes exist, and otherwise it is a no-op.
- The de-duplication in `query` ("Remove duplicates", `backend/graphrag_server.py:565`) never removes anything. The per-hit contexts share `visited`, so their ids are already distinct (`Query.QueryDedupIsIdentity`).
- The server's queue filter is redundant: both variants return the same context (`Variants.VariantsAlike`, `Query.AnswerVariantsAlike`).

One consequence of the shared `visited` set is proved rather than hidden. Each hit's walk
is a complete breadth-first search of the nodes that the earlier hits' walks left
unvisited (`Context.ContextComplete`, `Query.ExpandComplete`). Across hits, though, the
expansion is not complete. Take bound 2, a chain `A – B – W – X` and a second hit `S2`
linked to `W`. The walk from `A` marks `W` visited at depth 2 and stops there. The walk
from `S2` then never enters `W`, so `X` is returned by neither walk, although it is two
steps from `S2`. What every hit does promise is stated by `Query.ExpandSeedsRecorded` and
`Query.ExpandEmitsVisited`.

## Model

| member | source | states |
|---|---|---|
| DiGraphs.DiGraph.AddNode | backend/graphrag_server.py:96-101 | adding a node merges the given attributes into any it already has |
| DiGraphs.DiGraph.AddEdge | backend/graphrag_server.py:122 | adding an edge adds missing endpoints and merges attributes into the one dictionary of that ordered pair |
| DiGraphs.WithEdgeAgain | backend/graphrag_server.py:290-294 | adding the same edge with the same attributes twice is the same as adding it once |
| Hierarchy.AddChapters | backend/graphrag_server.py:89-131 | step 1 over the class builds exactly the graph of the fold `ChaptersNodes` |
| Hierarchy.AddChapter | backend/graphrag_server.py:90-131 | one chapter: its node, then its sections or else its direct articles, as `ChapterStep` |
| Hierarchy.AddSections | backend/graphrag_server.py:105-127 | the sections of a chapter with their articles, as the fold `SectionsNodes` |
| Hierarchy.AddArticles | backend/graphrag_server.py:124-131 | the articles under one parent node, in order, as the fold `ArticlesNodes` |
| Hierarchy.AddArticleNodes | backend/graphrag_server.py:167-222 | an article, its clauses and points, with their attributes and containment edges, as the fold `ArticleNodes` |
| Hierarchy.AddClauseNodes | backend/graphrag_server.py:186-222 | one clause node with its containment edge, then its points, as `ClauseStep` |
| Hierarchy.ChaptersNodesBuilt | backend/graphrag_server.py:89-131 | step 1 keeps the graph well formed, keeps the level each node type gets and creates only `contains` edges |
| Hierarchy.ChaptersNodesCreate | backend/graphrag_server.py:89-131 | every chapter gets its node, and a containment edge to each of its sections, articles, clauses and points |
| Hierarchy.ChaptersNodesAdds | backend/graphrag_server.py:89-131 | step 1 adds to a graph exactly the corpus's `(parent, child)` pairs as edges and, as nodes, exactly the chapter nodes and the children of those pairs |
| Hierarchy.ChaptersNodesExactly | backend/graphrag_server.py:89-131 | from the empty graph: the edges are exactly the corpus pairs, all `contains`; the nodes are exactly the chapter nodes and the pairs' children; with distinct child ids, each child has exactly one containing parent, its pair's |
| Hierarchy.EdgesArePairs | backend/graphrag_server.py:121-222 | in a graph whose edges are the pairs, every edge ends at a child, and with distinct children each child's only incoming edge is its pair's |
| Hierarchy.ChapterArticlesIgnored | backend/graphrag_server.py:103-131 | a chapter with sections builds the same nodes as if it had no direct articles (the `elif`) |
| Hierarchy.ArticleLevelIsOne | backend/graphrag_server.py:180 | an article gets level 1 whether its parent is a chapter or a section |
| Hierarchy.PointLevelIsFour | backend/graphrag_server.py:219 | a point gets level 4 |
| References.Resolve | backend/graphrag_server.py:240-262 | `"current"` is replaced by the current article or clause; any other id is used as given |
| References.Source | backend/graphrag_server.py:230-235 | the citing node is `Điều_a_Khoản_k`; the server has no source when the clause id is null, the service always has one |
| References.Present | backend/graphrag_server.py:250-283 | a candidate is kept exactly when it is a node of the graph |
| References.PresentOrder | backend/graphrag_server.py:250-283 | the existence filter distributes over concatenation, so the kept candidates stay in candidate order |
| References.PresentOne | backend/graphrag_server.py:256-262 | one candidate is kept exactly when it is a node |
| References.Targets | backend/graphrag_server.py:240-287 | every target is an existing node |
| References.FindTargets | backend/graphrag_server.py:240-287 | the target search of `resolve_reference` equals the function `Targets` |
| References.ResolveReference | backend/graphrag_server.py:224-294 | the method yields exactly the graph of `ResolveSpec` |
| References.AddReferenceEdges | backend/graphrag_server.py:290-294 | one `references` edge per target, in order, as the fold `AddEdges` |
| References.MostSpecific | backend/graphrag_server.py:250-287 | if any clause or point candidate exists, the targets are exactly the existing candidates; otherwise the targets are the article alone, if it exists |
| References.ResolutionMiss | backend/graphrag_server.py:240-287 | a citation gets no target exactly when it names no article, or neither a candidate nor the named article exists |
| References.ResolveKeepsNodes | backend/graphrag_server.py:290-294 | resolution creates no node and changes no node attribute |
| References.ResolveEdges | backend/graphrag_server.py:289-294 | each target gets a `references` edge with the citation text; every other pair is left alone; with no source the graph does not change |
| References.ResolveIdempotent | backend/graphrag_server.py:224-294 | resolving a citation a second time changes nothing |
| References.VariantsAgree | backend/services/graphrag_service_improved.py:196-198 | the variants agree when the clause id is present; with a null clause id the server drops the citation and the service resolves it from `Điều_a_Khoản_None` |
| References.OwnPointLosesParent | backend/graphrag_server.py:266-294 | a clause citing its own point relabels the point's containment edge as `references` |
| Build.BuildImprovedGraph | backend/graphrag_server.py:82-165 | the built graph is the fold `BuildSpec` (step 1, then step 2) |
| Build.ResolveAll | backend/graphrag_server.py:133-163 | step 2 over the class equals the fold `ChaptersRefs` |
| Build.ResolveChapter | backend/graphrag_server.py:134-163 | one chapter: its direct articles, then the articles of its sections, as `ChapterRefs` |
| Build.ResolveSections | backend/graphrag_server.py:151-163 | the articles of each section, as the fold `SectionsRefs` |
| Build.ResolveArticles | backend/graphrag_server.py:135-149 | the articles of a list, in order, as the fold `ArticlesRefs` |
| Build.ResolveArticle | backend/graphrag_server.py:136-149 | the clauses of one article, as the fold `ClausesRefs` |
| Build.ResolveClause | backend/graphrag_server.py:138-149 | a clause's own citations, then those of each of its points, as `ClauseRefs` |
| Build.ResolveCitations | backend/graphrag_server.py:143-149 | the citations of one clause or point, in order, as the fold `CitationsRefs` |
| Build.ChaptersRefsRefines | backend/graphrag_server.py:133-163 | step 2 keeps every node, attribute and pair; it adds only `references` edges, each starting at the node `Điều_a_Khoản_k` of a clause of the corpus (`CorpusSources`) |
| Build.BuildRefines | backend/graphrag_server.py:82-163 | step 1 yields a well-formed graph of containment edges, and step 2 refines it within the corpus's clause sources |
| Build.BuildFacts | backend/graphrag_server.py:82-165 | the built graph is well formed, has the levels by type, has only containment edges and references from the corpus's clause nodes, and contains every chapter's hierarchy |
| Embedding.Labelled | backend/graphrag_server.py:325-335 | a hierarchy label appears exactly when its value is truthy, and it starts with its prefix |
| Embedding.RefText | backend/graphrag_server.py:341-347 | a reference text is taken only from a `references` edge with a non-empty `ref_text` |
| Embedding.RefTextsSound | backend/graphrag_server.py:341-349 | every collected reference text comes from a `references` edge to a successor |
| Embedding.Metadata | backend/graphrag_server.py:364-374 | the metadata keeps exactly the known keys whose value is not None |
| Embedding.MetadataDefaults | backend/graphrag_server.py:364-374 | a missing type defaults to `unknown` and a missing level to 0 |
| Embedding.ClauseLabelExactly | backend/graphrag_server.py:325-335 | a `Khoản ` label is present exactly when the clause id is not None, and it then reads `Khoản <clause_id>`; no other label starts with `Khoản ` |
| Embedding.ClauseLabelKeptWhenFalsy | backend/graphrag_server.py:332-333 | the clause label is tested with `is not None`, so an empty clause id still gives the label `Khoản ` |
| Embedding.RecordFor | backend/graphrag_server.py:361-380 | a record exists exactly when the embedding text is not blank, and it carries the node's id |
| Embedding.PartsStartVisible | backend/graphrag_server.py:317-358 | the first part of the embedding text starts with its label, never with a space, so stripping cannot empty a non-empty text |
| Embedding.EmbeddingTextBlank | backend/graphrag_server.py:361-363 | a node is skipped exactly when it has no truthy title or text, no hierarchy label, no reference text and no containing node |
| Embedding.CreateNodeRecords | backend/graphrag_server.py:310-380 | the loop over `G.nodes` produces exactly the non-blank records in node order |
| Embedding.AppendRecord | backend/graphrag_server.py:311-380 | one turn of the node loop appends the node's record exactly when it has one |
| Embedding.RecordsExact | backend/graphrag_server.py:310-380 | the records are exactly the nodes with non-blank text, each with its own text and metadata |
| Embedding.RecordIdsDistinct | backend/graphrag_server.py:310-380 | record ids are distinct |
| Ranking.FetchCount | backend/graphrag_server.py:425 | the store is asked for `min(top_k * 5, 50)` hits |
| Ranking.Importance | backend/graphrag_server.py:443-454 | the type weights: article 1.0, clause 0.8, point 0.6, section 0.4, chapter 0.2, otherwise 0 |
| Ranking.SemanticSearch | backend/graphrag_server.py:420-469 | the scoring loop, sort and cut equal `Rerank` (an empty store result gives `[]`) |
| Ranking.RerankSize | backend/graphrag_server.py:468-469 | the result has `min(top_k, hits)` entries, all drawn from the scored hits |
| Ranking.RerankOrder | backend/graphrag_server.py:468 | the results are in descending score order |
| Ranking.RerankBest | backend/graphrag_server.py:468-469 | no hit that was cut scores above a hit that was kept |
| Ranking.RerankStable | backend/graphrag_server.py:468-469 | the kept hits of any one score are, in the store's order, a prefix of all hits of that score; with no cut they are all of them |
| Ranking.ArticleOutranksSection | backend/graphrag_server.py:443-457 | at equal distance an article scores strictly above a section: the importance depends on the type alone |
| Ranking.ImportanceOrders | backend/graphrag_server.py:440-457 | at equal distance, a heavier type scores strictly higher |
| Ranking.CloserOutranks | backend/graphrag_server.py:440-457 | at equal type, a strictly closer hit scores strictly higher |
| Ranking.ScoreBounds | backend/graphrag_server.py:440-457 | for a non-negative distance, the score is in (0, 1] |
| Context.Fresh | backend/graphrag_server.py:501-519 | neighbours to enqueue are the given ids at the next depth; the server also drops those already queued |
| Context.GetGraphContext | backend/graphrag_server.py:471-524 | the loop equals `GraphContext`: the sorted records and the updated `visited` |
| Context.VisitEntry | backend/graphrag_server.py:480-519 | one turn of `while queue` is `Step`: a dead entry is dropped, a live one is marked, recorded if its text is not blank, and its neighbours are enqueued |
| Context.Step | backend/graphrag_server.py:479-519 | each iteration either marks a new node visited or shortens the queue, so the loop terminates |
| Context.NeighboursSound | backend/graphrag_server.py:501-519 | every enqueued entry is one hop further and linked by a reference, child or parent edge |
| Context.NeighboursComplete | backend/graphrag_server.py:501-519 | every linked node is enqueued one hop further (for the server, unless already queued) |
| Context.ServerSkipsQueued | backend/graphrag_server.py:505-515 | the server never enqueues an entry already in the queue |
| Context.ServiceKeepsQueued | backend/services/graphrag_service_improved.py:464-483 | the service enqueues every reference target, queued or not |
| Context.ContextSorted | backend/graphrag_server.py:521-522 | the context is sorted by (depth, level) and is a permutation of the records found |
| Context.ContextRecords | backend/graphrag_server.py:482-498 | each record is an existing node with its own attributes and non-blank text, no deeper than the bound |
| Context.ContextReach | backend/graphrag_server.py:474-519 | each record's depth is the length of a reference/child/parent path from the start node to it |
| Context.ContextUnique | backend/graphrag_server.py:482-485 | record ids are distinct; none was visited before; all are visited after; `visited` only grows |
| Context.ContextDepthZero | backend/graphrag_server.py:474-498 | with depth 0 (or less) only the start node can be returned; in a well-formed graph the result is exactly the start node's record when the bound is 0, the start node is new and its text is not blank, and empty otherwise |
| Context.ContextDepthZeroSeed | backend/graphrag_server.py:474-498 | only the start node can be returned at depth 0 |
| Context.ContextSeed | backend/graphrag_server.py:474-498 | a new start node with text is returned at depth 0 whenever the bound is not negative |
| Context.ContextVisitsSeed | backend/graphrag_server.py:474-486 | with a bound that is not negative, the start node is in `visited` afterwards |
| Context.PathMarked | backend/graphrag_server.py:479-519 | once the queue is empty, the `i`-th node of a linked path of new nodes from the start was visited at depth at most `i` |
| Context.ExploreTracked | backend/graphrag_server.py:479-519 | the walk keeps its queue ordered by depth within two adjacent levels, records every new node with text at the depth it was visited, and keeps the start node visited at 0 or queued at 0 |
| Context.ExploreClosed | backend/graphrag_server.py:479-519 | every new node linked to a node visited above the bound is visited at most one level deeper or queued one level deeper |
| Context.WalkMarks | backend/graphrag_server.py:474-519 | after the walk, its visit depths are closed under links below the bound and the start node was visited at 0 |
| Context.ContextComplete | backend/graphrag_server.py:474-524 | every node with text reachable from the start in `n <= depth` linked steps through nodes not visited before is returned at a depth of at most `n` |
| Context.ContextCompleteFresh | backend/graphrag_server.py:474-524 | with an empty `visited`, every node with text reachable from the start in `n <= depth` linked steps is returned at a depth of at most `n` |
| Context.ContextEmitsVisited | backend/graphrag_server.py:482-498 | every node the walk adds to `visited` and whose text is not blank is returned |
| Context.ContextNeighbours | backend/graphrag_server.py:501-519 | with a bound of at least 1, every new neighbour with text of a new start node is returned at depth 1 |
| Context.LinkedNodes | backend/graphrag_server.py:501-519 | in a well-formed graph both ends of a reference, child or parent link are nodes |
| Format.Header | backend/graphrag_server.py:531-533 | a depth header starts a new line |
| Format.RenderLine | backend/graphrag_server.py:535-544 | the line of one record as `Line` |
| Format.FormatContextNodes | backend/graphrag_server.py:526-546 | the loop equals `FormatContext` |
| Format.FormatStep | backend/graphrag_server.py:531-544 | one turn of the loop emits a header first exactly when the record is deeper than the current depth, as `LinesStep` |
| Format.LineIsNotHeader | backend/graphrag_server.py:535-544 | a record line never starts with a newline, so it is never mistaken for a header |
| Format.LineShows | backend/graphrag_server.py:535-544 | a line is indented two spaces per depth and shows the id; chapters, sections and articles show their title, other records their text |
| Format.ArticleShowsTitle | backend/graphrag_server.py:537-542 | an article line reads `▪️ Article <id>: <title>` |
| Format.LinesAreBlocks | backend/graphrag_server.py:529-546 | a header opens a record exactly when it is deeper than every earlier record; the tracked depth is the deepest so far |
| Format.DeepestIsMax | backend/graphrag_server.py:529-533 | the depth the loop tracks is reached by some record and no record is deeper |
| Format.LastOpens | backend/graphrag_server.py:531-533 | the newest record opens a header exactly when it is deeper than every record before it |
| Format.BlocksStart | backend/graphrag_server.py:529-533 | a non-empty context text starts with the header of the first record |
| Format.OrderedOpens | backend/graphrag_server.py:531-533 | on depth-ordered records, a header opens the first record and each record deeper than the one before |
| Format.FormatEmpty | backend/graphrag_server.py:526-546 | the text is empty exactly when there are no records |
| Query.Query | backend/graphrag_server.py:548-589 | the non-model part of `query` equals `Answer` |
| Query.ExpandSeeds | backend/graphrag_server.py:557-563 | the expansion loop over the hits equals `Expand` with a fresh `visited` |
| Query.NotFoundExactly | backend/graphrag_server.py:553-554 | the sentinel answer is returned exactly when the search finds nothing |
| Query.PromptHolds | backend/graphrag_server.py:585-589 | the user prompt contains the question and the context text |
| Query.ExpandUnique | backend/graphrag_server.py:557-563 | the expanded records have distinct ids, none visited before |
| Query.ExpandRecords | backend/graphrag_server.py:557-563 | every expanded record is an existing node within the depth bound, reached from some hit by a path of its depth |
| Query.IndexOfId | backend/graphrag_server.py:566 | the first position of an id, or -1 when absent |
| Query.DedupDistinct | backend/graphrag_server.py:566 | after the de-duplication, ids are distinct |
| Query.DedupFrom | backend/graphrag_server.py:566 | the de-duplication invents no record |
| Query.DedupKeeps | backend/graphrag_server.py:566 | every id survives, and the final record survives |
| Query.DedupLast | backend/graphrag_server.py:566 | for every id, the last record with that id is the one kept |
| Query.DedupFirstOrder | backend/graphrag_server.py:566 | the kept records are in the order in which their ids first occur (insertion order of the dict) |
| Query.DedupDistinctIdentity | backend/graphrag_server.py:566 | on distinct ids the de-duplication is the identity |
| Query.ExpandGrows | backend/graphrag_server.py:560-563 | the expansion of the first hits is a prefix of the whole expansion |
| Query.ExpandNext | backend/graphrag_server.py:560-563 | one more hit appends its context, computed with the `visited` set the earlier hits left |
| Query.ExpandComplete | backend/graphrag_server.py:557-563 | every node with text reachable from the `i`-th hit in `n <= depth` steps through nodes the earlier hits left unvisited has a record at depth at most `n` |
| Query.ExpandEmitsVisited | backend/graphrag_server.py:557-563 | every node added to the shared `visited` set and whose text is not blank has a record |
| Query.ExpandVisitsSeeds | backend/graphrag_server.py:557-563 | with a bound that is not negative, every hit's node ends up in `visited` |
| Query.ExpandSeedsRecorded | backend/graphrag_server.py:557-563 | with a bound that is not negative, every hit's node that is new and has text has a record, at whatever depth the first walk to reach it found it |
| Query.QueryDedupIsIdentity | backend/graphrag_server.py:557-566 | the de-duplication in `query` changes nothing |
| Query.AskReply | backend/services/graphrag_service_improved.py:538-588 | the reply's prompt holds the question and the context; at most `top_k` items, with distinct ids of existing nodes |
| Variants.Without | backend/graphrag_server.py:505-515 | the "not in queue" filter keeps exactly the entries not already queued |
| Variants.NeighboursWithout | backend/graphrag_server.py:501-519 | the server's neighbours are the service's neighbours without the queued entries |
| Variants.ExploreAlike | backend/graphrag_server.py:479-519 | two queues with the same live entries explore to the same `visited` and records, whichever variant runs |
| Variants.VisitAlike | backend/graphrag_server.py:479-486 | when both queues start with a live entry, it is the same entry, and both walks agree from there |
| Variants.MissingAlike | backend/graphrag_server.py:485-487 | an entry naming no node is only marked visited in both walks |
| Variants.ExpandAlike | backend/graphrag_server.py:487-519 | an entry naming a node gives both walks the same record and queues with the same live entries |
| Variants.VariantsAlike | backend/services/graphrag_service_improved.py:435-487 | server and service contexts are equal |
| Query.ExpandVariantsAlike | backend/services/graphrag_service_improved.py:528-535 | server and service expansions are equal |
| Query.AnswerVariantsAlike | backend/services/graphrag_service_improved.py:512-588 | both variants find nothing in the same cases; otherwise, the replies differ only in the sentinel text |

## Left out

- The embedding model, the OpenAI chat call, ChromaDB and the system prompt are foreign calls. The store's hits are an input, and the model's answer is not modelled.
- The LLM error path of `query` depends on the foreign call.
- FastAPI, Pydantic, the routers, the neo4j service and every other backend module are outside the retrieval core.
- `async` and concurrency are not modelled.
- Loading the corpus from JSON is not modelled. Records are typed, so the `KeyError` on a missing `id` or `text` and non-string values are out of scope.
- `node_mapping` is built by step 1 but never read by the core, so it is not modelled.
- Floats are modelled as exact reals, with no IEEE rounding. A score tie in Python may differ from a tie in the model.
- Ranking.Similarity requires `distance != -1`. The source would divide by zero; distances from the store are non-negative.
- PyValues.Capitalize and PyValues.Lower are ASCII-only. The node types they are applied to are ASCII.
- `top_k` is a `nat`. A negative `top_k` in Python slices from the end.
- Context.GetGraphContext takes the caller's `visited` set and returns its new value, instead of mutating a shared set in place.
- Query.Answer models items for both variants. The server returns only the answer and the context text; the items follow the service's returned `context`.
- Logging is left out.
