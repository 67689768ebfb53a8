/** The re-ranking step of `semantic_search`: each hit the vector store returns gets a
    score mixing its similarity (from the store's distance) with a fixed weight for
    its node type; hits are stably sorted by descending score and cut to `top_k`.
    The embedder and the store are outside the model: their hits are an input. */
module Ranking {
  import opened PyValues
  import opened Sorting

  /** One hit of the store: an id, its stored metadata, its document and its distance. */
  datatype Hit = Hit(id: string, metadata: Attrs, document: string, distance: real)

  /** A hit with its final score, as `scored_results` holds it. */
  datatype Scored = Scored(hit: Hit, score: real)

  /** `n_results`: how many hits are requested from the store. */
  function FetchCount(topK: nat): (n: nat)
    ensures n <= 50 && n <= 5 * topK
    ensures n == 50 || n == 5 * topK
  {
    if topK * 5 < 50 then topK * 5 else 50
  }

  /** `1.0 / (1.0 + distance)`. */
  function Similarity(distance: real): real
    requires distance != -1.0
  {
    1.0 / (1.0 + distance)
  }

  /** The importance weight of a node type. */
  function Importance(nodeType: Value): (w: real)
    ensures 0.0 <= w <= 1.0
  {
    if nodeType == Str("article") then 1.0
    else if nodeType == Str("clause") then 0.8
    else if nodeType == Str("point") then 0.6
    else if nodeType == Str("section") then 0.4
    else if nodeType == Str("chapter") then 0.2
    else 0.0
  }

  /** `final_score`. */
  function Score(h: Hit): real
    requires h.distance != -1.0
  {
    Similarity(h.distance) * 0.7 + Importance(Get(h.metadata, "type")) * 0.3
  }

  ghost predicate Scorable(hits: seq<Hit>) {
    forall i :: 0 <= i < |hits| ==> hits[i].distance != -1.0
  }

  function ScoreAll(hits: seq<Hit>): (r: seq<Scored>)
    requires Scorable(hits)
    ensures |r| == |hits|
    ensures forall i :: 0 <= i < |hits| ==> r[i] == Scored(hits[i], Score(hits[i]))
    decreases |hits|
  {
    if hits == [] then []
    else ScoreAll(hits[..|hits| - 1]) + [Scored(hits[|hits| - 1], Score(hits[|hits| - 1]))]
  }

  /** The sort key of `sort(key=score, reverse=True)`: ascending on the negated score. */
  function ByScore(s: Scored): Key {
    (-s.score, 0.0)
  }

  /** `scored_results[:top_k]` after the stable descending sort. */
  function Rerank(hits: seq<Hit>, topK: nat): seq<Scored>
    requires Scorable(hits)
  {
    var sorted := SortBy(ScoreAll(hits), ByScore);
    SortByCorrect(ScoreAll(hits), ByScore);
    sorted[..if topK < |sorted| then topK else |sorted|]
  }

  /** The scoring loop of `semantic_search`, then the sort and the cut; an empty store
      result gives `[]`. */
  method SemanticSearch(hits: seq<Hit>, topK: nat) returns (results: seq<Scored>)
    requires Scorable(hits)
    ensures results == Rerank(hits, topK)
  {
    if hits == [] {
      return [];
    }
    var scored: seq<Scored> := [];
    var i := 0;
    while i < |hits|
      invariant 0 <= i <= |hits|
      invariant scored == ScoreAll(hits[..i])
    {
      var h := hits[i];
      var semanticScore := 1.0 / (1.0 + h.distance);
      var importanceScore := 0.0;
      var nodeType := Get(h.metadata, "type");
      if nodeType == Str("article") {
        importanceScore := 1.0;
      } else if nodeType == Str("clause") {
        importanceScore := 0.8;
      } else if nodeType == Str("point") {
        importanceScore := 0.6;
      } else if nodeType == Str("section") {
        importanceScore := 0.4;
      } else if nodeType == Str("chapter") {
        importanceScore := 0.2;
      }
      var finalScore := semanticScore * 0.7 + importanceScore * 0.3;
      assert finalScore == Score(h);
      scored := scored + [Scored(h, finalScore)];
      assert hits[..i + 1][..i] == hits[..i];
      i := i + 1;
    }
    assert hits[..i] == hits;
    var sorted := SortBy(scored, ByScore);
    SortByCorrect(scored, ByScore);
    results := sorted[..if topK < |sorted| then topK else |sorted|];
  }

  // ---------------------------------------------------------------------------
  // Properties.

  /** A prefix of a list sorted by descending score is itself in that order. */
  lemma SortedPrefixOrder(sorted: seq<Scored>, k: nat)
    requires SortedBy(sorted, ByScore) && k <= |sorted|
    ensures forall i, j :: 0 <= i < j < k ==> sorted[i].score >= sorted[j].score
  {
    forall i, j | 0 <= i < j < k ensures sorted[i].score >= sorted[j].score {
      assert KeyLe(ByScore(sorted[i]), ByScore(sorted[j]));
    }
  }

  /** No element left out of a prefix of a list sorted by descending score scores
      above an element kept. */
  lemma SortedPrefixBest(sorted: seq<Scored>, k: nat)
    requires SortedBy(sorted, ByScore) && k <= |sorted|
    ensures forall s :: s in multiset(sorted) - multiset(sorted[..k]) ==>
      forall i :: 0 <= i < k ==> s.score <= sorted[i].score
  {
    assert sorted == sorted[..k] + sorted[k..];
    assert multiset(sorted) == multiset(sorted[..k]) + multiset(sorted[k..]);
    forall s | s in multiset(sorted) - multiset(sorted[..k])
      ensures forall i :: 0 <= i < k ==> s.score <= sorted[i].score
    {
      assert s in sorted[k..];
      var j :| 0 <= j < |sorted[k..]| && sorted[k..][j] == s;
      assert sorted[k + j] == s;
      forall i | 0 <= i < k ensures s.score <= sorted[i].score {
        assert KeyLe(ByScore(sorted[i]), ByScore(sorted[k + j]));
      }
    }
  }

  /** The result holds `min(top_k, len(hits))` of the scored hits. */
  lemma RerankSize(hits: seq<Hit>, topK: nat)
    requires Scorable(hits)
    ensures |Rerank(hits, topK)| == (if topK < |hits| then topK else |hits|)
    ensures multiset(Rerank(hits, topK)) <= multiset(ScoreAll(hits))
  {
    var all := ScoreAll(hits);
    var sorted := SortBy(all, ByScore);
    SortByCorrect(all, ByScore);
    var k := if topK < |sorted| then topK else |sorted|;
    assert sorted == sorted[..k] + sorted[k..];
  }

  /** The result is in descending score order. */
  lemma RerankOrder(hits: seq<Hit>, topK: nat)
    requires Scorable(hits)
    ensures var r := Rerank(hits, topK);
      forall i, j :: 0 <= i < j < |r| ==> r[i].score >= r[j].score
  {
    var all := ScoreAll(hits);
    var sorted := SortBy(all, ByScore);
    SortByCorrect(all, ByScore);
    var k := if topK < |sorted| then topK else |sorted|;
    SortedPrefixOrder(sorted, k);
    var r := sorted[..k];
    assert Rerank(hits, topK) == r;
    forall i, j | 0 <= i < j < |r| ensures r[i].score >= r[j].score {
      assert r[i] == sorted[i] && r[j] == sorted[j];
    }
  }

  /** No scored hit left out of the result scores above a hit kept. */
  lemma RerankBest(hits: seq<Hit>, topK: nat)
    requires Scorable(hits)
    ensures var r := Rerank(hits, topK);
      forall s :: s in multiset(ScoreAll(hits)) - multiset(r) ==>
        forall i :: 0 <= i < |r| ==> s.score <= r[i].score
  {
    var all := ScoreAll(hits);
    var sorted := SortBy(all, ByScore);
    SortByCorrect(all, ByScore);
    SortedPrefixBest(sorted, if topK < |sorted| then topK else |sorted|);
  }

  /** Hits of equal score keep the order the store returned them in: the kept hits of
      one score are the first ones of that score in store order, and all of them when
      nothing is cut. */
  lemma RerankStable(hits: seq<Hit>, topK: nat, score: real)
    requires Scorable(hits)
    ensures WithKey(Rerank(hits, topK), ByScore, (-score, 0.0)) <= WithKey(ScoreAll(hits), ByScore, (-score, 0.0))
    ensures topK >= |hits| ==>
      WithKey(Rerank(hits, topK), ByScore, (-score, 0.0)) == WithKey(ScoreAll(hits), ByScore, (-score, 0.0))
  {
    var all := ScoreAll(hits);
    var sorted := SortBy(all, ByScore);
    SortByCorrect(all, ByScore);
    SortByStable(all, ByScore, (-score, 0.0));
    var k := if topK < |sorted| then topK else |sorted|;
    assert Rerank(hits, topK) == sorted[..k];
    WithKeyPrefix(sorted, k, ByScore, (-score, 0.0));
    if topK >= |hits| {
      assert sorted[..k] == sorted;
    }
  }

  /** At equal distance, a heavier type scores higher: an article outranks a clause, a
      clause a point, a point a section, a section a chapter, a chapter any other type. */
  lemma ImportanceOrders(h1: Hit, h2: Hit)
    requires h1.distance == h2.distance && h1.distance != -1.0
    requires Importance(Get(h1.metadata, "type")) > Importance(Get(h2.metadata, "type"))
    ensures Score(h1) > Score(h2)
  {
  }

  lemma ArticleOutranksSection(h1: Hit, h2: Hit)
    requires h1.distance == h2.distance && h1.distance != -1.0
    requires Get(h1.metadata, "type") == Str("article") && Get(h2.metadata, "type") == Str("section")
    ensures Score(h1) > Score(h2)
  {
    ImportanceOrders(h1, h2);
  }

  /** At equal type, a closer hit (smaller non-negative distance) scores higher. */
  lemma CloserOutranks(h1: Hit, h2: Hit)
    requires 0.0 <= h1.distance < h2.distance
    requires Get(h1.metadata, "type") == Get(h2.metadata, "type")
    ensures Score(h1) > Score(h2)
  {
    var a, b := 1.0 + h1.distance, 1.0 + h2.distance;
    assert 1.0 / a - 1.0 / b == (b - a) / (a * b);
    assert a * b > 0.0;
    assert (b - a) / (a * b) > 0.0;
  }

  /** For a non-negative distance, the score lies in (0, 1]. */
  lemma ScoreBounds(h: Hit)
    requires h.distance >= 0.0
    ensures 0.0 < Score(h) <= 1.0
  {
    var a := 1.0 + h.distance;
    assert 0.0 < 1.0 / a <= 1.0 by {
      assert 1.0 / a * a == 1.0;
    }
  }
}
