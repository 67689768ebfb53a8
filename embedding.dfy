/** The text-building part of `create_embeddings` / `_create_enhanced_embeddings`:
    for every node of the graph, the document handed to the embedder (title, text,
    hierarchy labels, reference texts and containing nodes, one part per line) and
    the metadata stored beside it. */
module Embedding {
  import opened PyValues
  import opened DiGraphs
  import opened Sorting

  /** `G.nodes[id]` (the empty dictionary for an id that is not a node). */
  function NodeAttrs(g: Graph, id: string): Attrs {
    if id in g.attrs then g.attrs[id] else map[]
  }

  /** `[f"{prefix}{v}"] if v else []`. */
  function Labelled(prefix: string, v: Value): (r: seq<string>)
    ensures |r| <= 1
    ensures r != [] <==> Truthy(v)
    ensures r != [] ==> prefix <= r[0] && |r[0]| > |prefix|
  {
    if Truthy(v) then [prefix + Render(v)] else []
  }

  /** `hierarchy`: chapter, section, article, clause and point labels; the clause
      label is kept whenever `clause_id` is not None, the others only when truthy. */
  function HierarchyLabels(d: Attrs): seq<string> {
    Labelled("Chương ", Get(d, "chapter_id"))
    + Labelled("Mục ", Get(d, "section_id"))
    + Labelled("Điều ", Get(d, "article_id"))
    + (if Get(d, "clause_id") != Nil then ["Khoản " + Render(Get(d, "clause_id"))] else [])
    + Labelled("Điểm ", Get(d, "point_id"))
  }

  /** The `ref_text` of `u -> v` when that pair is a `references` edge with a truthy text. */
  function RefText(g: Graph, u: string, v: string): (r: seq<string>)
    ensures |r| <= 1
    ensures r != [] ==> Relation(g, u, v) == Str("references") && r[0] != ""
  {
    if (u, v) in g.edgeAttrs && Get(g.edgeAttrs[(u, v)], "relation") == Str("references") then
      Labelled("", GetOr(g.edgeAttrs[(u, v)], "ref_text", Str("")))
    else []
  }

  /** `references`: the loop over the successors `vs` of `u`. */
  function RefTexts(g: Graph, u: string, vs: seq<string>): (r: seq<string>)
    decreases |vs|
  {
    if vs == [] then []
    else RefTexts(g, u, vs[..|vs| - 1]) + RefText(g, u, vs[|vs| - 1])
  }

  /** Each collected reference text is the non-empty `ref_text` of a `references`
      edge from `u` to one of `vs`. */
  lemma {:induction false} RefTextsSound(g: Graph, u: string, vs: seq<string>, t: string)
    requires t in RefTexts(g, u, vs)
    ensures t != "" && exists v :: v in vs && Relation(g, u, v) == Str("references") && RefText(g, u, v) == [t]
    decreases |vs|
  {
    var init, last := vs[..|vs| - 1], vs[|vs| - 1];
    if t in RefTexts(g, u, init) {
      RefTextsSound(g, u, init, t);
      var v :| v in init && Relation(g, u, v) == Str("references") && RefText(g, u, v) == [t];
      assert v in vs;
    } else {
      assert RefText(g, u, last) == [t];
    }
  }

  /** `context_parts`, in the order the source appends them, for a node with
      attributes `d`, reference texts `refs` and containing nodes `parents`. */
  function PartsOf(d: Attrs, refs: seq<string>, parents: seq<string>): seq<string> {
    var labels := HierarchyLabels(d);
    Labelled("Tiêu đề: ", Get(d, "title"))
    + Labelled("Nội dung: ", Get(d, "text"))
    + (if labels != [] then ["Cấp độ: " + Join(" - ", labels)] else [])
    + (if refs != [] then ["Tham chiếu: " + Join(", ", refs)] else [])
    + (if parents != [] then ["Được chứa trong: " + Join(", ", parents)] else [])
  }

  /** `context_parts` for node `id`. */
  function EmbeddingParts(g: Graph, id: string): seq<string> {
    PartsOf(NodeAttrs(g, id), RefTexts(g, id, Successors(g, id)), Parents(g, id))
  }

  /** `full_text`. */
  function EmbeddingText(g: Graph, id: string): string {
    Join("\n", EmbeddingParts(g, id))
  }

  const MetadataKeys: set<string> := {"type", "level", "article_id", "clause_id", "point_id", "chapter_id", "section_id"}

  /** The value the metadata dictionary is built with for key `k`. */
  function MetadataValue(d: Attrs, k: string): Value {
    if k == "type" then GetOr(d, "type", Str("unknown"))
    else if k == "level" then GetOr(d, "level", Int(0))
    else Get(d, k)
  }

  /** `filtered_metadata`: the seven metadata keys, without those whose value is None. */
  function Metadata(d: Attrs): (m: Attrs)
    ensures forall k :: k in m ==> m[k] != Nil
    ensures forall k :: k in m <==> k in MetadataKeys && MetadataValue(d, k) != Nil
  {
    map k | k in MetadataKeys && MetadataValue(d, k) != Nil :: MetadataValue(d, k)
  }

  /** One `node_records` entry. */
  datatype NodeRecord = NodeRecord(id: string, text: string, metadata: Attrs)

  /** The record of node `id`, or none when its text is blank. */
  function RecordFor(g: Graph, id: string): (r: Option<NodeRecord>)
    ensures r.None? <==> IsBlank(EmbeddingText(g, id))
    ensures r.Some? ==> r.value.id == id
  {
    var text := EmbeddingText(g, id);
    if IsBlank(text) then None else Some(NodeRecord(id, text, Metadata(NodeAttrs(g, id))))
  }

  function RecordAt(g: Graph): string -> Option<NodeRecord> {
    id => RecordFor(g, id)
  }

  /** `node_records` for the nodes `ids`, in order. */
  function Records(g: Graph, ids: seq<string>): seq<NodeRecord> {
    FilterMap(RecordAt(g), ids)
  }

  // ---------------------------------------------------------------------------
  // The loops of `create_embeddings`.

  lemma InWithSnoc(g: Graph, ws: seq<string>, w: string, v: string, rel: string)
    ensures InWith(g, ws + [w], v, rel) == InWith(g, ws, v, rel) + InWith(g, [w], v, rel)
    decreases |ws|
  {
    if ws != [] {
      assert (ws + [w])[1..] == ws[1..] + [w];
      InWithSnoc(g, ws[1..], w, v, rel);
    }
  }

  /** The loop collecting the texts of the `references` edges from `u` to the nodes `vs`. */
  method CollectReferences(g: DiGraph, u: string, vs: seq<string>) returns (refs: seq<string>)
    ensures refs == RefTexts(g.Snapshot(), u, vs)
  {
    refs := [];
    var i := 0;
    while i < |vs|
      invariant 0 <= i <= |vs|
      invariant refs == RefTexts(g.Snapshot(), u, vs[..i])
    {
      refs := refs + RefText(g.Snapshot(), u, vs[i]);
      assert vs[..i + 1][..i] == vs[..i];
      i := i + 1;
    }
    assert vs[..i] == vs;
  }

  /** The loop collecting `contained_by`, the `contains` predecessors of `v`. */
  method CollectContainers(g: DiGraph, v: string, preds: seq<string>) returns (containedBy: seq<string>)
    ensures containedBy == InWith(g.Snapshot(), preds, v, "contains")
  {
    containedBy := [];
    var i := 0;
    while i < |preds|
      invariant 0 <= i <= |preds|
      invariant containedBy == InWith(g.Snapshot(), preds[..i], v, "contains")
    {
      if Relation(g.Snapshot(), preds[i], v) == Str("contains") {
        containedBy := containedBy + [preds[i]];
      }
      InWithSnoc(g.Snapshot(), preds[..i], preds[i], v, "contains");
      assert preds[..i + 1] == preds[..i] + [preds[i]];
      i := i + 1;
    }
    assert preds[..i] == preds;
  }

  /** `context_parts`, appended one by one. */
  method AssembleParts(d: Attrs, references: seq<string>, containedBy: seq<string>) returns (parts: seq<string>)
    ensures parts == PartsOf(d, references, containedBy)
  {
    parts := [];
    if Truthy(Get(d, "title")) {
      parts := parts + ["Tiêu đề: " + Render(Get(d, "title"))];
    }
    assert parts == Labelled("Tiêu đề: ", Get(d, "title"));
    if Truthy(Get(d, "text")) {
      parts := parts + ["Nội dung: " + Render(Get(d, "text"))];
    }
    assert parts == Labelled("Tiêu đề: ", Get(d, "title")) + Labelled("Nội dung: ", Get(d, "text"));
    ghost var done := parts;
    var hierarchy := HierarchyLabels(d);
    if hierarchy != [] {
      parts := parts + ["Cấp độ: " + Join(" - ", hierarchy)];
    }
    assert parts == done + (if hierarchy != [] then ["Cấp độ: " + Join(" - ", hierarchy)] else []);
    done := parts;
    if references != [] {
      parts := parts + ["Tham chiếu: " + Join(", ", references)];
    }
    assert parts == done + (if references != [] then ["Tham chiếu: " + Join(", ", references)] else []);
    done := parts;
    if containedBy != [] {
      parts := parts + ["Được chứa trong: " + Join(", ", containedBy)];
    }
    assert parts == done + (if containedBy != [] then ["Được chứa trong: " + Join(", ", containedBy)] else []);
  }

  /** The body of the node loop: the parts of node `id`, then its record. */
  method BuildRecord(g: DiGraph, id: string) returns (rec: Option<NodeRecord>)
    ensures rec == RecordFor(g.Snapshot(), id)
  {
    var d: Attrs := if g.HasNode(id) then g.attrs[id] else map[];
    var references := CollectReferences(g, id, Successors(g.Snapshot(), id));
    var containedBy := CollectContainers(g, id, Predecessors(g.Snapshot(), id));
    var parts := AssembleParts(d, references, containedBy);
    var fullText := Join("\n", parts);
    if IsBlank(fullText) {
      rec := None;
    } else {
      rec := Some(NodeRecord(id, fullText, Metadata(d)));
    }
  }

  /** The body of the node loop: node `ids[i]`'s record, if any, appended. */
  method AppendRecord(g: DiGraph, ids: seq<string>, i: nat, records: seq<NodeRecord>) returns (records': seq<NodeRecord>)
    requires i < |ids| && records == Records(g.Snapshot(), ids[..i])
    ensures records' == Records(g.Snapshot(), ids[..i + 1])
  {
    var rec := BuildRecord(g, ids[i]);
    ghost var prefix := ids[..i + 1];
    assert prefix[..i] == ids[..i] && prefix[i] == ids[i];
    assert RecordAt(g.Snapshot())(ids[i]) == rec;
    FilterMapLast(RecordAt(g.Snapshot()), prefix);
    records' := records;
    if rec.Some? {
      records' := records + [rec.value];
    }
  }

  /** `node_records`, built by the loop over `G.nodes()`. */
  method CreateNodeRecords(g: DiGraph) returns (records: seq<NodeRecord>)
    ensures records == Records(g.Snapshot(), g.Snapshot().nodes)
  {
    var ids := g.nodes;
    records := [];
    var i := 0;
    while i < |ids|
      invariant 0 <= i <= |ids|
      invariant records == Records(g.Snapshot(), ids[..i])
    {
      records := AppendRecord(g, ids, i, records);
      i := i + 1;
    }
    assert ids[..i] == ids;
  }

  // ---------------------------------------------------------------------------
  // Properties.

  /** The first part starts with the first letter of its label, not with a space. */
  lemma PartsStartVisible(d: Attrs, refs: seq<string>, parents: seq<string>)
    ensures var parts := PartsOf(d, refs, parents);
      parts != [] ==> parts[0] != [] && !IsSpace(parts[0][0])
  {
    var labels := HierarchyLabels(d);
    var a := Labelled("Tiêu đề: ", Get(d, "title"));
    var b := Labelled("Nội dung: ", Get(d, "text"));
    var c: seq<string> := if labels != [] then ["Cấp độ: " + Join(" - ", labels)] else [];
    var e: seq<string> := if refs != [] then ["Tham chiếu: " + Join(", ", refs)] else [];
    var f: seq<string> := if parents != [] then ["Được chứa trong: " + Join(", ", parents)] else [];
    var parts := a + b + c + e + f;
    assert PartsOf(d, refs, parents) == parts;
    LabelInitials();
    if a != [] {
      assert parts[0] == a[0] && a[0][0] == 'T';
    } else if b != [] {
      assert parts[0] == b[0] && b[0][0] == 'N';
    } else if c != [] {
      assert parts[0] == c[0] && c[0][0] == 'C';
    } else if e != [] {
      assert parts[0] == e[0] && e[0][0] == 'T';
    } else if f != [] {
      assert parts[0] == f[0] && f[0][0] == 'Đ';
    }
  }

  /** The first letters of the part labels are not spaces. */
  lemma LabelInitials()
    ensures !IsSpace('T') && !IsSpace('N') && !IsSpace('C') && !IsSpace('Đ')
  {
  }

  /** The embedding text is blank exactly when the node has no truthy title or text,
      no hierarchy label, no reference text and no containing node; only then does it
      get no record. */
  lemma EmbeddingTextBlank(g: Graph, id: string)
    ensures var d := NodeAttrs(g, id);
      IsBlank(EmbeddingText(g, id)) <==>
        && !Truthy(Get(d, "title")) && !Truthy(Get(d, "text"))
        && HierarchyLabels(d) == []
        && RefTexts(g, id, Successors(g, id)) == []
        && Parents(g, id) == []
    ensures RecordFor(g, id).None? <==> IsBlank(EmbeddingText(g, id))
  {
    var parts := EmbeddingParts(g, id);
    PartsStartVisible(NodeAttrs(g, id), RefTexts(g, id, Successors(g, id)), Parents(g, id));
    if parts != [] { assert parts[0] in parts; }
    JoinBlank("\n", parts);
  }

  /** The clause label is kept for any clause id that is not None, even a falsy one,
      while the other labels need a truthy value. */
  lemma ClauseLabelKeptWhenFalsy(d: Attrs)
    requires Get(d, "chapter_id") == Str("") && Get(d, "section_id") == Nil
    requires Get(d, "article_id") == Nil && Get(d, "point_id") == Nil
    requires Get(d, "clause_id") == Str("")
    ensures HierarchyLabels(d) == ["Khoản "]
  {
    assert Labelled("Chương ", Get(d, "chapter_id")) == [];
    assert "Khoản " + Render(Get(d, "clause_id")) == "Khoản ";
  }

  /** For every attribute dictionary, a clause label is present exactly when `clause_id`
      is not None, and it then names that id, falsy or not. */
  lemma ClauseLabelExactly(d: Attrs)
    ensures (exists l :: l in HierarchyLabels(d) && "Khoản " <= l) <==> Get(d, "clause_id") != Nil
    ensures Get(d, "clause_id") != Nil ==> "Khoản " + Render(Get(d, "clause_id")) in HierarchyLabels(d)
  {
    var l1, l2 := Labelled("Chương ", Get(d, "chapter_id")), Labelled("Mục ", Get(d, "section_id"));
    var l3, l5 := Labelled("Điều ", Get(d, "article_id")), Labelled("Điểm ", Get(d, "point_id"));
    var l4 := if Get(d, "clause_id") != Nil then ["Khoản " + Render(Get(d, "clause_id"))] else [];
    assert HierarchyLabels(d) == l1 + l2 + l3 + l4 + l5;
    NotClauseLabel("Chương ", Get(d, "chapter_id"));
    NotClauseLabel("Mục ", Get(d, "section_id"));
    NotClauseLabel("Điều ", Get(d, "article_id"));
    NotClauseLabel("Điểm ", Get(d, "point_id"));
    if Get(d, "clause_id") == Nil {
      forall l | l in HierarchyLabels(d) ensures !("Khoản " <= l) {
        assert l in l1 || l in l2 || l in l3 || l in l5;
      }
    } else {
      assert l4[0] in HierarchyLabels(d);
    }
  }

  /** A label whose prefix starts with another letter is not a clause label. */
  lemma NotClauseLabel(prefix: string, v: Value)
    requires prefix != [] && prefix[0] != 'K'
    ensures forall l :: l in Labelled(prefix, v) ==> !("Khoản " <= l)
  {
    forall l | l in Labelled(prefix, v) ensures !("Khoản " <= l) {
      assert l[0] == prefix[0];
    }
  }

  /** A node with well-typed attributes always has `type` and `level` in its metadata,
      with `unknown` and 0 when the node lacks them. */
  lemma MetadataDefaults(d: Attrs)
    requires "type" !in d || d["type"] != Nil
    requires "level" !in d || d["level"] != Nil
    ensures "type" in Metadata(d) && "level" in Metadata(d)
    ensures "type" !in d ==> Metadata(d)["type"] == Str("unknown")
    ensures "level" !in d ==> Metadata(d)["level"] == Int(0)
  {
  }

  /** `node_records` holds one record per node whose text is not blank, carrying that
      node's embedding text and metadata, and nothing else. */
  lemma RecordsExact(g: Graph, ids: seq<string>)
    ensures forall rec :: rec in Records(g, ids) ==>
      && rec.id in ids && rec.text == EmbeddingText(g, rec.id) && !IsBlank(rec.text)
      && rec.metadata == Metadata(NodeAttrs(g, rec.id))
    ensures forall id :: id in ids && !IsBlank(EmbeddingText(g, id)) ==>
      exists rec :: rec in Records(g, ids) && rec.id == id
  {
    var f := RecordAt(g);
    forall rec | rec in Records(g, ids)
      ensures && rec.id in ids && rec.text == EmbeddingText(g, rec.id) && !IsBlank(rec.text)
              && rec.metadata == Metadata(NodeAttrs(g, rec.id))
    {
      FilterMapSound(f, ids, rec);
      var id :| id in ids && f(id) == Some(rec);
      assert RecordFor(g, id) == Some(rec);
    }
    forall id | id in ids && !IsBlank(EmbeddingText(g, id))
      ensures exists rec :: rec in Records(g, ids) && rec.id == id
    {
      FilterMapComplete(f, ids, id);
      assert f(id) == RecordFor(g, id);
    }
  }

  /** Nodes listed once each give records with distinct ids. */
  lemma RecordIdsDistinct(g: Graph, ids: seq<string>)
    requires Distinct(ids)
    ensures Distinct(MapSeq((rec: NodeRecord) => rec.id, Records(g, ids)))
  {
    FilterMapDistinct(RecordAt(g), (rec: NodeRecord) => rec.id, ids);
  }
}
