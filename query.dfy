/** The non-LLM part of `query`: re-rank the store's hits, expand every hit's node with
    one shared `visited` set, drop repeated ids, re-sort by `(depth_from_start, level)`,
    format the context and build the user prompt. With no hit the fixed "not found"
    answer is returned and nothing is expanded. The language model's answer is outside
    the model. */
module Query {
  import opened PyValues
  import opened DiGraphs
  import opened Sorting
  import opened Ranking
  import opened Context
  import opened Format
  import opened Variants

  /** The answer returned when the search finds nothing. */
  function NotFoundAnswer(variant: Variant): string {
    match variant
    case Server => "Không tìm thấy thông tin liên quan trong luật."
    case Service => "Không tìm thấy thông tin liên quan trong luật nhà ở."
  }

  /** One entry of the service's returned `context`: `{id, content, type}`. */
  datatype Item = Item(id: string, content: string, nodeType: string)

  /** What `query` hands back (not found), or hands to the language model (ask). The
      server returns the answer with `contextText`; the service returns the answer with
      `items`. */
  datatype Reply =
    | NotFound(answer: string)
    | Ask(userPrompt: string, contextText: string, items: seq<Item>)

  /** The user prompt around the question and the formatted context. */
  function UserPrompt(question: string, contextText: string): string {
    "Câu hỏi: " + question + "\n\n" + contextText + "\n\nHãy trả lời câu hỏi dựa trên NỘI DUNG LUẬT LIÊN QUAN đã cho."
  }

  /** `{"id": ..., "content": node.get('text') or node.get('title'), "type": ...}`. */
  function ItemOf(n: ContextNode): Item {
    Item(n.id, if n.text != "" then n.text else n.title, n.nodeType)
  }

  function HitId(s: Scored): string {
    s.hit.id
  }

  /** The expansion of `seeds` in order, each with the set the previous ones left,
      concatenating the contexts (`all_context_nodes.extend(...)`). */
  function Expand(g: Graph, seeds: seq<string>, depth: int, visited: set<string>, variant: Variant): (seq<ContextNode>, set<string>)
    decreases |seeds|
  {
    if seeds == [] then ([], visited)
    else
      var (all, seen) := Expand(g, seeds[..|seeds| - 1], depth, visited, variant);
      var (ctx, after) := GraphContext(g, seeds[|seeds| - 1], depth, seen, variant);
      (all + ctx, after)
  }

  /** The position of the first record with id `id`, if any. */
  function IndexOfId(s: seq<ContextNode>, id: string): (k: int)
    ensures -1 <= k < |s|
    ensures k >= 0 ==> s[k].id == id && forall j :: 0 <= j < k ==> s[j].id != id
    ensures k < 0 ==> forall j :: 0 <= j < |s| ==> s[j].id != id
    decreases |s|
  {
    if s == [] then -1
    else if s[0].id == id then 0
    else
      var k := IndexOfId(s[1..], id);
      if k < 0 then -1 else k + 1
  }

  /** `list({node['id']: node for node in s}.values())`: the ids in the order they first
      appear, each with the last record carrying it. */
  function DedupById(s: seq<ContextNode>): seq<ContextNode>
    decreases |s|
  {
    if s == [] then []
    else
      var r := DedupById(s[..|s| - 1]);
      var n := s[|s| - 1];
      var k := IndexOfId(r, n.id);
      if k < 0 then r + [n] else r[k := n]
  }

  /** What `query` produces for the store's `hits`. */
  function Answer(g: Graph, hits: seq<Hit>, topK: nat, depth: int, question: string, variant: Variant): Reply
    requires Scorable(hits)
  {
    var results := Rerank(hits, topK);
    if results == [] then NotFound(NotFoundAnswer(variant))
    else
      var all := Expand(g, MapSeq(HitId, results), depth, {}, variant).0;
      var unique := SortBy(DedupById(all), ByDepthLevel);
      var contextText := FormatContext(unique);
      Ask(UserPrompt(question, contextText), contextText,
          MapSeq(ItemOf, unique[..if topK < |unique| then topK else |unique|]))
  }

  /** The expansion loop of `query`: every seed in order, with one shared `visited`. */
  method ExpandSeeds(g: DiGraph, seeds: seq<string>, depth: int, variant: Variant) returns (all: seq<ContextNode>)
    ensures all == Expand(g.Snapshot(), seeds, depth, {}, variant).0
  {
    ghost var gs := g.Snapshot();
    all := [];
    var visited: set<string> := {};
    var i := 0;
    while i < |seeds|
      invariant 0 <= i <= |seeds|
      invariant (all, visited) == Expand(gs, seeds[..i], depth, {}, variant)
    {
      var ctx, after := GetGraphContext(g, seeds[i], depth, visited, variant);
      assert seeds[..i + 1][..i] == seeds[..i] && seeds[..i + 1][i] == seeds[i];
      all, visited := all + ctx, after;
      i := i + 1;
    }
    assert seeds[..i] == seeds;
  }

  /** `query(question, ...)` up to the call of the language model. */
  method Query(g: DiGraph, hits: seq<Hit>, topK: nat, depth: int, question: string, variant: Variant)
    returns (reply: Reply)
    requires Scorable(hits)
    ensures reply == Answer(g.Snapshot(), hits, topK, depth, question, variant)
  {
    var results := SemanticSearch(hits, topK);
    if results == [] {
      return NotFound(NotFoundAnswer(variant));
    }
    var all := ExpandSeeds(g, MapSeq(HitId, results), depth, variant);
    var unique := SortBy(DedupById(all), ByDepthLevel);
    var contextText := FormatContextNodes(unique);
    reply := Ask(UserPrompt(question, contextText), contextText,
                 MapSeq(ItemOf, unique[..if topK < |unique| then topK else |unique|]));
  }

  // ---------------------------------------------------------------------------
  // Properties.

  /** The "not found" answer comes back exactly when the re-ranked list is empty: the
      store returned nothing, or `top_k` is 0. */
  lemma NotFoundExactly(g: Graph, hits: seq<Hit>, topK: nat, depth: int, question: string, variant: Variant)
    requires Scorable(hits)
    ensures Answer(g, hits, topK, depth, question, variant).NotFound? <==> hits == [] || topK == 0
    ensures Answer(g, hits, topK, depth, question, variant).NotFound? ==>
      Answer(g, hits, topK, depth, question, variant).answer == NotFoundAnswer(variant)
  {
    RerankSize(hits, topK);
  }

  /** The prompt holds the question and the formatted context. */
  lemma PromptHolds(question: string, contextText: string)
    ensures Contains(UserPrompt(question, contextText), question)
    ensures Contains(UserPrompt(question, contextText), contextText)
  {
    var tail := "\n\nHãy trả lời câu hỏi dựa trên NỘI DUNG LUẬT LIÊN QUAN đã cho.";
    assert UserPrompt(question, contextText) == "Câu hỏi: " + question + ("\n\n" + contextText + tail);
    InfixContained("Câu hỏi: ", question, "\n\n" + contextText + tail);
    assert UserPrompt(question, contextText) == "Câu hỏi: " + question + "\n\n" + contextText + tail;
    InfixContained("Câu hỏi: " + question + "\n\n", contextText, tail);
  }

  /** Seeds expanded one after another with one shared set never yield an id twice, and
      every id they yield was not in the set before and is in it after. */
  lemma {:induction false} ExpandUnique(g: Graph, seeds: seq<string>, depth: int, visited: set<string>, variant: Variant)
    ensures var (all, after) := Expand(g, seeds, depth, visited, variant);
      && visited <= after
      && (forall n :: n in all ==> n.id in after && n.id !in visited)
      && KeysDistinct(all, NodeId)
    decreases |seeds|
  {
    if seeds != [] {
      var init := seeds[..|seeds| - 1];
      var (prev, seen) := Expand(g, init, depth, visited, variant);
      ExpandUnique(g, init, depth, visited, variant);
      var (ctx, after) := GraphContext(g, seeds[|seeds| - 1], depth, seen, variant);
      ContextUnique(g, seeds[|seeds| - 1], depth, seen, variant);
      var all := prev + ctx;
      assert Expand(g, seeds, depth, visited, variant) == (all, after);
      forall n | n in all ensures n.id in after && n.id !in visited {
        if n in prev {
          assert n.id in seen;
        }
      }
      forall i, j | 0 <= i < j < |all| ensures NodeId(all[i]) != NodeId(all[j]) {
        if i < |prev| && j >= |prev| {
          assert all[i] in prev && all[j] in ctx;
          assert all[i].id in seen && all[j].id !in seen;
        } else if i >= |prev| {
          assert all[i] == ctx[i - |prev|] && all[j] == ctx[j - |prev|];
        }
      }
    }
  }

  /** Every expanded record is the record of a graph node with non-blank text, within
      the depth bound, reachable from one of the seeds in exactly its depth of steps. */
  lemma {:induction false} ExpandRecords(g: Graph, seeds: seq<string>, depth: int, visited: set<string>, variant: Variant)
    ensures forall n :: n in Expand(g, seeds, depth, visited, variant).0 ==>
      && n.id in g.attrs && n == NodeAt(g, n.id, n.depth) && !IsBlank(n.text) && n.depth <= depth
      && exists s :: s in seeds && Reach(g, s, n.id, n.depth)
    decreases |seeds|
  {
    if seeds != [] {
      var init, last := seeds[..|seeds| - 1], seeds[|seeds| - 1];
      var (prev, seen) := Expand(g, init, depth, visited, variant);
      ExpandRecords(g, init, depth, visited, variant);
      ContextRecords(g, last, depth, seen, variant);
      ContextReach(g, last, depth, seen, variant);
      var ctx := GraphContext(g, last, depth, seen, variant).0;
      assert Expand(g, seeds, depth, visited, variant).0 == prev + ctx;
      forall n | n in prev + ctx
        ensures && n.id in g.attrs && n == NodeAt(g, n.id, n.depth) && !IsBlank(n.text) && n.depth <= depth
                && exists s :: s in seeds && Reach(g, s, n.id, n.depth)
      {
        if n in prev {
          var s :| s in init && Reach(g, s, n.id, n.depth);
          assert s in seeds;
        } else {
          assert last in seeds;
        }
      }
    }
  }

  /** Removing repeated ids changes nothing on a list without repeated ids. */
  lemma {:induction false} DedupDistinctIdentity(s: seq<ContextNode>)
    requires KeysDistinct(s, NodeId)
    ensures DedupById(s) == s
    decreases |s|
  {
    if s != [] {
      var init, n := s[..|s| - 1], s[|s| - 1];
      assert KeysDistinct(init, NodeId);
      DedupDistinctIdentity(init);
      forall j | 0 <= j < |init| ensures init[j].id != n.id {
        assert NodeId(s[j]) != NodeId(s[|s| - 1]);
      }
      assert init + [n] == s;
    }
  }

  /** The result holds each id once. */
  lemma {:induction false} DedupDistinct(s: seq<ContextNode>)
    ensures KeysDistinct(DedupById(s), NodeId)
    decreases |s|
  {
    if s != [] {
      var init, n := s[..|s| - 1], s[|s| - 1];
      var r := DedupById(init);
      DedupDistinct(init);
      var k := IndexOfId(r, n.id);
      if k < 0 {
        var out := r + [n];
        assert DedupById(s) == out;
        forall i, j | 0 <= i < j < |out| ensures NodeId(out[i]) != NodeId(out[j]) {
          assert out[i] == r[i];
          if j < |r| {
            assert out[j] == r[j];
          }
        }
      } else {
        var out := r[k := n];
        assert DedupById(s) == out;
        forall i, j | 0 <= i < j < |out| ensures NodeId(out[i]) != NodeId(out[j]) {
          assert NodeId(r[i]) != NodeId(r[j]);
        }
      }
    }
  }

  /** Every record of the result is a record of the input. */
  lemma {:induction false} DedupFrom(s: seq<ContextNode>)
    ensures forall n :: n in DedupById(s) ==> n in s
    decreases |s|
  {
    if s != [] {
      var init, n := s[..|s| - 1], s[|s| - 1];
      var r := DedupById(init);
      DedupFrom(init);
      var k := IndexOfId(r, n.id);
      var out := DedupById(s);
      assert out == if k < 0 then r + [n] else r[k := n];
      forall m | m in out ensures m in s {
        var i :| 0 <= i < |out| && out[i] == m;
        if (k < 0 && i == |r|) || i == k {
          assert m == n;
        } else {
          assert m == r[i] && m in init;
        }
      }
    }
  }

  /** Every id of the input is kept, with the last record that carries it. */
  lemma {:induction false} DedupKeeps(s: seq<ContextNode>)
    ensures forall i :: 0 <= i < |s| ==> exists m :: m in DedupById(s) && m.id == s[i].id
    ensures s != [] ==> s[|s| - 1] in DedupById(s)
    decreases |s|
  {
    if s != [] {
      var init, n := s[..|s| - 1], s[|s| - 1];
      var r := DedupById(init);
      DedupKeeps(init);
      var k := IndexOfId(r, n.id);
      var out := DedupById(s);
      assert out == if k < 0 then r + [n] else r[k := n];
      assert n in out by {
        if k < 0 {
          assert out[|r|] == n;
        } else {
          assert out[k] == n;
        }
      }
      forall i | 0 <= i < |s| ensures exists m :: m in out && m.id == s[i].id {
        if i < |init| {
          assert s[i] == init[i];
          var m :| m in r && m.id == init[i].id;
          var p :| 0 <= p < |r| && r[p] == m;
          if p == k {
            assert out[k] == n && n.id == m.id;
          } else {
            assert out[p] == m;
          }
        }
      }
    }
  }

  /** `s[i]` is the last record of `s` carrying its id. */
  ghost predicate LastWithId(s: seq<ContextNode>, i: int)
    requires 0 <= i < |s|
  {
    forall j :: i < j < |s| ==> s[j].id != s[i].id
  }

  /** The record kept for an id is the last one carrying it: every last record survives
      (and, the result holding each id once, no other record with its id does). */
  lemma {:induction false} DedupLast(s: seq<ContextNode>)
    ensures forall i :: 0 <= i < |s| && LastWithId(s, i) ==> s[i] in DedupById(s)
    decreases |s|
  {
    if s != [] {
      var init, n := s[..|s| - 1], s[|s| - 1];
      var r := DedupById(init);
      DedupLast(init);
      DedupKeeps(s);
      var k := IndexOfId(r, n.id);
      var out := DedupById(s);
      assert out == if k < 0 then r + [n] else r[k := n];
      forall i | 0 <= i < |s| && LastWithId(s, i) ensures s[i] in out {
        if i < |init| {
          assert s[i] == init[i];
          assert s[i].id != n.id;
          assert LastWithId(init, i) by {
            forall j | i < j < |init| ensures init[j].id != init[i].id {
              assert init[j] == s[j];
            }
          }
          assert init[i] in r;
          var p :| 0 <= p < |r| && r[p] == init[i];
          if k < 0 {
            assert out[p] == r[p];
          } else {
            assert p != k;
            assert out[p] == r[p];
          }
        }
      }
    }
  }

  /** Where an id first occurs in `init + [n]`: where it first occurs in `init`, else at
      `n` when `n` carries it. */
  lemma {:induction false} IndexOfIdSnoc(init: seq<ContextNode>, n: ContextNode, id: string)
    ensures IndexOfId(init, id) >= 0 ==> IndexOfId(init + [n], id) == IndexOfId(init, id)
    ensures IndexOfId(init, id) < 0 ==> IndexOfId(init + [n], id) == (if n.id == id then |init| else -1)
    decreases |init|
  {
    if init != [] {
      assert (init + [n])[0] == init[0];
      assert (init + [n])[1..] == init[1..] + [n];
      IndexOfIdSnoc(init[1..], n, id);
    } else {
      assert (init + [n])[1..] == [];
    }
  }

  /** The ids kept from `init` first occur in `init`, where they first occur in
      `init + [n]` too. */
  lemma DedupIdsBefore(init: seq<ContextNode>, n: ContextNode)
    ensures var r := DedupById(init);
      forall i :: 0 <= i < |r| ==> 0 <= IndexOfId(init + [n], r[i].id) == IndexOfId(init, r[i].id) < |init|
  {
    var r := DedupById(init);
    DedupFrom(init);
    forall i | 0 <= i < |r| ensures 0 <= IndexOfId(init + [n], r[i].id) == IndexOfId(init, r[i].id) < |init| {
      assert r[i] in init;
      var q :| 0 <= q < |init| && init[q] == r[i];
      assert IndexOfId(init, r[i].id) >= 0;
      IndexOfIdSnoc(init, n, r[i].id);
    }
  }

  /** An id the records of `init` do not keep first occurs at `n`. */
  lemma DedupIdNew(init: seq<ContextNode>, n: ContextNode)
    requires IndexOfId(DedupById(init), n.id) < 0
    ensures IndexOfId(init + [n], n.id) == |init|
  {
    var r := DedupById(init);
    DedupKeeps(init);
    assert IndexOfId(init, n.id) < 0;
    IndexOfIdSnoc(init, n, n.id);
  }

  /** The ids of the result come in the order of their first occurrence in the input. */
  lemma {:induction false} DedupFirstOrder(s: seq<ContextNode>)
    ensures var out := DedupById(s);
      forall i, j :: 0 <= i < j < |out| ==> 0 <= IndexOfId(s, out[i].id) < IndexOfId(s, out[j].id)
    decreases |s|
  {
    if s != [] {
      var init, n := s[..|s| - 1], s[|s| - 1];
      assert s == init + [n];
      var r := DedupById(init);
      DedupFirstOrder(init);
      DedupIdsBefore(init, n);
      var k := IndexOfId(r, n.id);
      var out := DedupById(s);
      if k < 0 {
        assert out == r + [n];
        DedupIdNew(init, n);
        forall i, j | 0 <= i < j < |out| ensures 0 <= IndexOfId(s, out[i].id) < IndexOfId(s, out[j].id) {
          assert out[i] == r[i];
          if j < |r| {
            assert out[j] == r[j];
          }
        }
      } else {
        assert out == r[k := n];
        forall i, j | 0 <= i < j < |out| ensures 0 <= IndexOfId(s, out[i].id) < IndexOfId(s, out[j].id) {
          assert out[i].id == r[i].id && out[j].id == r[j].id;
        }
      }
    }
  }

  /** The removal of repeated ids in `query` never removes anything: the shared `visited`
      set already keeps every id to one seed, once. */
  lemma QueryDedupIsIdentity(g: Graph, seeds: seq<string>, depth: int, variant: Variant)
    ensures DedupById(Expand(g, seeds, depth, {}, variant).0) == Expand(g, seeds, depth, {}, variant).0
  {
    ExpandUnique(g, seeds, depth, {}, variant);
    DedupDistinctIdentity(Expand(g, seeds, depth, {}, variant).0);
  }

  /** What an ask reply carries: a prompt holding the question and the context text, the
      text of the context sorted by `(depth_from_start, level)`, and at most `top_k` items
      for distinct graph nodes. */
  lemma AskReply(g: Graph, hits: seq<Hit>, topK: nat, depth: int, question: string, variant: Variant)
    requires Scorable(hits)
    ensures var reply := Answer(g, hits, topK, depth, question, variant);
      reply.Ask? ==>
        && Contains(reply.userPrompt, question) && Contains(reply.userPrompt, reply.contextText)
        && |reply.items| <= topK
        && (forall i, j :: 0 <= i < j < |reply.items| ==> reply.items[i].id != reply.items[j].id)
        && (forall i :: 0 <= i < |reply.items| ==> reply.items[i].id in g.attrs)
  {
    var reply := Answer(g, hits, topK, depth, question, variant);
    if reply.Ask? {
      var results := Rerank(hits, topK);
      var seeds := MapSeq(HitId, results);
      var all := Expand(g, seeds, depth, {}, variant).0;
      QueryDedupIsIdentity(g, seeds, depth, variant);
      ExpandUnique(g, seeds, depth, {}, variant);
      ExpandRecords(g, seeds, depth, {}, variant);
      var unique := SortBy(all, ByDepthLevel);
      var k := if topK < |unique| then topK else |unique|;
      assert reply == Ask(UserPrompt(question, FormatContext(unique)), FormatContext(unique), MapSeq(ItemOf, unique[..k]));
      PromptHolds(question, reply.contextText);
      ItemsShown(g, all, topK);
    }
  }

  /** The items of the first `top_k` sorted records are at most `top_k`, for distinct
      graph nodes, when the records are. */
  lemma ItemsShown(g: Graph, all: seq<ContextNode>, topK: nat)
    requires KeysDistinct(all, NodeId) && forall n :: n in all ==> n.id in g.attrs
    ensures var unique := SortBy(all, ByDepthLevel);
      var items := MapSeq(ItemOf, unique[..if topK < |unique| then topK else |unique|]);
      && |items| <= topK
      && (forall i, j :: 0 <= i < j < |items| ==> items[i].id != items[j].id)
      && (forall i :: 0 <= i < |items| ==> items[i].id in g.attrs)
  {
    var unique := SortBy(all, ByDepthLevel);
    SortByCorrect(all, ByDepthLevel);
    PermutationKeysDistinct(all, unique, NodeId);
    var k := if topK < |unique| then topK else |unique|;
    var items := MapSeq(ItemOf, unique[..k]);
    forall i, j | 0 <= i < j < |items| ensures items[i].id != items[j].id {
      assert items[i].id == NodeId(unique[i]) && items[j].id == NodeId(unique[j]);
    }
    forall i | 0 <= i < |items| ensures items[i].id in g.attrs {
      assert items[i].id == unique[i].id;
      assert unique[i] in multiset(all);
    }
  }

  /** The server and the service expand seeds alike, despite the server's queue filter. */
  lemma {:induction false} ExpandVariantsAlike(g: Graph, seeds: seq<string>, depth: int, visited: set<string>)
    ensures Expand(g, seeds, depth, visited, Server) == Expand(g, seeds, depth, visited, Service)
    decreases |seeds|
  {
    if seeds != [] {
      var init := seeds[..|seeds| - 1];
      ExpandVariantsAlike(g, init, depth, visited);
      VariantsAlike(g, seeds[|seeds| - 1], depth, Expand(g, init, depth, visited, Server).1);
    }
  }

  /** The two variants answer alike except for the wording of the "not found" answer. */
  lemma AnswerVariantsAlike(g: Graph, hits: seq<Hit>, topK: nat, depth: int, question: string)
    requires Scorable(hits)
    ensures Answer(g, hits, topK, depth, question, Server).Ask? ==>
      Answer(g, hits, topK, depth, question, Server) == Answer(g, hits, topK, depth, question, Service)
    ensures Answer(g, hits, topK, depth, question, Server).NotFound? <==>
      Answer(g, hits, topK, depth, question, Service).NotFound?
  {
    ExpandVariantsAlike(g, MapSeq(HitId, Rerank(hits, topK)), depth, {});
  }

  // ---------------------------------------------------------------------------
  // Completeness of the expansion. A node that one seed's walk marks visited is
  // never expanded again, so what a later seed reaches is bounded by the nodes its
  // predecessors left unvisited.

  /** The expansion of a prefix of the seeds is a prefix of the whole expansion. */
  lemma {:induction false} ExpandGrows(g: Graph, seeds: seq<string>, depth: int, visited: set<string>, variant: Variant, i: nat)
    requires i <= |seeds|
    ensures Expand(g, seeds[..i], depth, visited, variant).0 <= Expand(g, seeds, depth, visited, variant).0
    decreases |seeds|
  {
    if i < |seeds| {
      var init := seeds[..|seeds| - 1];
      assert init[..i] == seeds[..i];
      ExpandGrows(g, init, depth, visited, variant, i);
    } else {
      assert seeds[..i] == seeds;
    }
  }

  /** Every node the expansion added to the shared set and whose text is not blank is
      in the expanded records. */
  lemma {:induction false} ExpandEmitsVisited(g: Graph, seeds: seq<string>, depth: int, visited: set<string>, variant: Variant)
    requires Valid(g)
    ensures var (all, after) := Expand(g, seeds, depth, visited, variant);
      forall x :: x in after && x !in visited && x in g.attrs && !IsBlank(TextOf(g.attrs[x])) ==>
        exists k :: NodeAt(g, x, k) in all
    decreases |seeds|
  {
    if seeds != [] {
      var init, last := seeds[..|seeds| - 1], seeds[|seeds| - 1];
      var (prev, seen) := Expand(g, init, depth, visited, variant);
      ExpandEmitsVisited(g, init, depth, visited, variant);
      ExpandUnique(g, init, depth, visited, variant);
      ContextEmitsVisited(g, last, depth, seen, variant);
      var (ctx, after) := GraphContext(g, last, depth, seen, variant);
      assert Expand(g, seeds, depth, visited, variant) == (prev + ctx, after);
      forall x | x in after && x !in visited && x in g.attrs && !IsBlank(TextOf(g.attrs[x]))
        ensures exists k :: NodeAt(g, x, k) in prev + ctx
      {
        if x in seen {
          var k :| NodeAt(g, x, k) in prev;
        } else {
          var k :| NodeAt(g, x, k) in ctx;
        }
      }
    }
  }

  /** With a bound that is not negative, every seed ends up in the shared set. */
  lemma {:induction false} ExpandVisitsSeeds(g: Graph, seeds: seq<string>, depth: int, visited: set<string>, variant: Variant)
    requires depth >= 0
    ensures forall s :: s in seeds ==> s in Expand(g, seeds, depth, visited, variant).1
    decreases |seeds|
  {
    if seeds != [] {
      var init, last := seeds[..|seeds| - 1], seeds[|seeds| - 1];
      var seen := Expand(g, init, depth, visited, variant).1;
      ExpandVisitsSeeds(g, init, depth, visited, variant);
      ContextVisitsSeed(g, last, depth, seen, variant);
      ContextUnique(g, last, depth, seen, variant);
      forall s | s in seeds ensures s in Expand(g, seeds, depth, visited, variant).1 {
        if s != last {
          assert s in init;
        }
      }
    }
  }

  /** Every seed that is a node with text and was not in the set beforehand has a
      record, whichever walk reached it first. */
  lemma ExpandSeedsRecorded(g: Graph, seeds: seq<string>, depth: int, visited: set<string>, variant: Variant)
    requires Valid(g) && depth >= 0
    ensures var all := Expand(g, seeds, depth, visited, variant).0;
      forall s :: s in seeds && s !in visited && s in g.attrs && !IsBlank(TextOf(g.attrs[s])) ==>
        exists k :: NodeAt(g, s, k) in all
  {
    ExpandVisitsSeeds(g, seeds, depth, visited, variant);
    ExpandEmitsVisited(g, seeds, depth, visited, variant);
  }

  /** One more seed appends its context to the expansion of the seeds before it. */
  lemma ExpandNext(g: Graph, seeds: seq<string>, depth: int, visited: set<string>, variant: Variant, i: nat)
    requires i < |seeds|
    ensures var (prev, seen) := Expand(g, seeds[..i], depth, visited, variant);
      Expand(g, seeds[..i + 1], depth, visited, variant).0 == prev + GraphContext(g, seeds[i], depth, seen, variant).0
  {
    var pre := seeds[..i + 1];
    assert pre[..|pre| - 1] == seeds[..i] && pre[|pre| - 1] == seeds[i];
  }

  /** Completeness per seed: a node with text reachable from the `i`-th seed in `n <=
      depth` linked steps through nodes that the earlier seeds left outside the shared
      set has a record at a depth of at most `n`. */
  lemma ExpandComplete(g: Graph, seeds: seq<string>, depth: int, visited: set<string>, variant: Variant, i: nat, v: string, n: nat)
    requires Valid(g) && i < |seeds| && n <= depth
    requires ReachAvoiding(g, seeds[i], v, n, Expand(g, seeds[..i], depth, visited, variant).1)
    requires v in g.attrs && !IsBlank(TextOf(g.attrs[v]))
    ensures exists k: nat :: k <= n && NodeAt(g, v, k) in Expand(g, seeds, depth, visited, variant).0
  {
    var seen := Expand(g, seeds[..i], depth, visited, variant).1;
    ContextComplete(g, seeds[i], depth, seen, variant, v, n);
    var k: nat :| k <= n && NodeAt(g, v, k) in GraphContext(g, seeds[i], depth, seen, variant).0;
    ExpandNext(g, seeds, depth, visited, variant, i);
    ExpandGrows(g, seeds, depth, visited, variant, i + 1);
    assert NodeAt(g, v, k) in Expand(g, seeds[..i + 1], depth, visited, variant).0;
  }
}
