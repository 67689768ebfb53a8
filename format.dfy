/** The context formatter (`format_context_nodes` / `_format_context_nodes`): one line
    per context record, indented two spaces per depth, with a `--- Depth d ---` header
    line whenever a record is deeper than every record before it; the lines are joined
    with newlines. */
module Format {
  import opened PyValues
  import opened Sorting
  import opened Context

  /** The header line opening depth `d`. */
  function Header(d: nat): (r: string)
    ensures r != [] && r[0] == '\n'
  {
    "\n--- Depth " + NatToString(d) + " ---"
  }

  /** The types rendered with their title rather than their text. */
  predicate ShowsTitle(capitalized: string) {
    capitalized in ["Chapter", "Section", "Article"]
  }

  /** The line of one record. */
  function Line(n: ContextNode): string {
    var indent := Repeat("  ", n.depth);
    var nodeType := Capitalize(n.nodeType);
    if ShowsTitle(nodeType) then indent + "▪️ " + nodeType + " " + n.id + ": " + n.title
    else indent + "▪️ " + n.id + ": " + n.text
  }

  /** One turn of the loop: a header when the record is deeper than the last header,
      then the record's line. */
  function LinesStep(acc: (seq<string>, int), n: ContextNode): (seq<string>, int) {
    if n.depth > acc.1 then (acc.0 + [Header(n.depth), Line(n)], n.depth)
    else (acc.0 + [Line(n)], acc.1)
  }

  /** The lines for `nodes` and the depth of the last header (-1 before any), as the
      loop leaves `formatted_text` and `current_depth`. */
  function Lines(nodes: seq<ContextNode>): (seq<string>, int)
    decreases |nodes|
  {
    if nodes == [] then ([], -1)
    else LinesStep(Lines(nodes[..|nodes| - 1]), nodes[|nodes| - 1])
  }

  /** The formatted context. */
  function FormatContext(nodes: seq<ContextNode>): string {
    Join("\n", Lines(nodes).0)
  }

  /** The body of the loop after the header check: the record's own line. */
  method RenderLine(node: ContextNode) returns (line: string)
    ensures line == Line(node)
  {
    var indent := Repeat("  ", node.depth);
    var nodeType := Capitalize(node.nodeType);
    if nodeType in ["Chapter", "Section", "Article"] {
      line := indent + "▪️ " + nodeType + " " + node.id + ": " + node.title;
    } else {
      line := indent + "▪️ " + node.id + ": " + node.text;
    }
  }

  /** The body of the loop: the header check, then the record's line. */
  method FormatStep(formatted: seq<string>, currentDepth: int, node: ContextNode)
    returns (formatted': seq<string>, currentDepth': int)
    ensures (formatted', currentDepth') == LinesStep((formatted, currentDepth), node)
  {
    formatted', currentDepth' := formatted, currentDepth;
    if node.depth > currentDepth {
      formatted' := formatted' + [Header(node.depth)];
      currentDepth' := node.depth;
    }
    var line := RenderLine(node);
    ghost var before := formatted';
    formatted' := formatted' + [line];
    if node.depth > currentDepth {
      assert before == formatted + [Header(node.depth)];
      assert formatted' == formatted + [Header(node.depth), Line(node)];
    }
  }

  /** The loop of `format_context_nodes`. */
  method FormatContextNodes(nodes: seq<ContextNode>) returns (s: string)
    ensures s == FormatContext(nodes)
  {
    var formatted: seq<string> := [];
    var currentDepth: int := -1;
    var i := 0;
    while i < |nodes|
      invariant 0 <= i <= |nodes|
      invariant (formatted, currentDepth) == Lines(nodes[..i])
    {
      formatted, currentDepth := FormatStep(formatted, currentDepth, nodes[i]);
      assert nodes[..i + 1][..i] == nodes[..i];
      i := i + 1;
    }
    assert nodes[..i] == nodes;
    s := Join("\n", formatted);
  }

  // ---------------------------------------------------------------------------
  // Properties.

  /** A record line never starts a new line: it begins with its indent or the bullet. */
  lemma LineIsNotHeader(n: ContextNode)
    ensures Line(n) != [] && Line(n)[0] != '\n'
  {
    var indent := Repeat("  ", n.depth);
    if n.depth > 0 {
      assert indent == "  " + Repeat("  ", n.depth - 1);
      assert Line(n)[0] == ' ';
    } else {
      assert Line(n)[0] == '▪';
    }
  }

  /** Chapters, sections and articles show their title; every other record its text;
      every line shows the record's id after an indent of two spaces per depth. */
  lemma LineShows(n: ContextNode)
    ensures Repeat("  ", n.depth) <= Line(n) && |Repeat("  ", n.depth)| == 2 * n.depth
    ensures Contains(Line(n), n.id)
    ensures ShowsTitle(Capitalize(n.nodeType)) ==> Contains(Line(n), n.title)
    ensures !ShowsTitle(Capitalize(n.nodeType)) ==> Contains(Line(n), n.text)
  {
    var indent := Repeat("  ", n.depth);
    var nodeType := Capitalize(n.nodeType);
    if ShowsTitle(nodeType) {
      TitleLineShows(n, indent, nodeType);
    } else {
      TextLineShows(n, indent);
    }
  }

  /** A chapter, section or article line: indent, bullet, type, id and title. */
  lemma TitleLineShows(n: ContextNode, indent: string, nodeType: string)
    requires indent == Repeat("  ", n.depth) && nodeType == Capitalize(n.nodeType) && ShowsTitle(nodeType)
    ensures indent <= Line(n) && Contains(Line(n), n.id) && Contains(Line(n), n.title)
  {
    var pre := indent + "▪️ " + nodeType + " ";
    StartsWith(indent, "▪️ ", nodeType, " ");
    FieldsShown(indent, pre, n.id, n.title, Line(n));
  }

  /** Any other line: indent, bullet, id and text. */
  lemma TextLineShows(n: ContextNode, indent: string)
    requires indent == Repeat("  ", n.depth) && !ShowsTitle(Capitalize(n.nodeType))
    ensures indent <= Line(n) && Contains(Line(n), n.id) && Contains(Line(n), n.text)
  {
    FieldsShown(indent, indent + "▪️ ", n.id, n.text, Line(n));
  }

  /** A concatenation starts with its first piece. */
  lemma StartsWith(a: string, b: string, c: string, d: string)
    ensures a <= a + b + c + d
  {
    assert (a + b + c + d)[..|a|] == a;
  }

  /** A line `pre + id + ": " + body` starts like `pre` and shows both `id` and `body`. */
  lemma FieldsShown(indent: string, pre: string, id: string, body: string, l: string)
    requires indent <= pre && l == pre + id + ": " + body
    ensures indent <= l && Contains(l, id) && Contains(l, body)
  {
    assert l == pre + id + (": " + body);
    InfixContained(pre, id, ": " + body);
    assert l == (pre + id + ": ") + body + "";
    InfixContained(pre + id + ": ", body, "");
    assert l[..|pre|] == pre;
  }

  /** An article record (type `article`) is rendered with its title. */
  lemma ArticleShowsTitle(n: ContextNode)
    requires n.nodeType == "article"
    ensures Line(n) == Repeat("  ", n.depth) + "▪️ Article " + n.id + ": " + n.title
  {
    ArticleCapitalized();
    assert ShowsTitle("Article");
  }

  /** `"article".capitalize()` is `"Article"`. */
  lemma ArticleCapitalized()
    ensures Capitalize("article") == "Article"
  {
    var r := Capitalize("article");
    assert r[0] == 'A';
    assert forall i :: 0 < i < 7 ==> r[i] == LowerChar("article"[i]) == "Article"[i];
  }

  /** A header opens record `i` exactly when it is deeper than every earlier record. */
  ghost predicate Opens(nodes: seq<ContextNode>, i: nat)
    requires i < |nodes|
  {
    forall j :: 0 <= j < i ==> nodes[j].depth < nodes[i].depth
  }

  /** The lines of record `i`: its header if it opens one, then its own line. */
  ghost function Block(nodes: seq<ContextNode>, i: nat): seq<string>
    requires i < |nodes|
  {
    (if Opens(nodes, i) then [Header(nodes[i].depth)] else []) + [Line(nodes[i])]
  }

  /** The blocks of the records, in order. */
  ghost function Blocks(nodes: seq<ContextNode>): seq<string>
    decreases |nodes|
  {
    if nodes == [] then [] else Blocks(nodes[..|nodes| - 1]) + Block(nodes, |nodes| - 1)
  }

  /** The deepest record so far, -1 when there is none. */
  ghost function Deepest(nodes: seq<ContextNode>): int
    decreases |nodes|
  {
    if nodes == [] then -1
    else
      var m := Deepest(nodes[..|nodes| - 1]);
      var last := nodes[|nodes| - 1];
      if last.depth > m then last.depth else m
  }

  /** `Deepest` is the largest depth of the records, reached by one of them. */
  lemma {:induction false} DeepestIsMax(nodes: seq<ContextNode>)
    ensures forall j :: 0 <= j < |nodes| ==> nodes[j].depth <= Deepest(nodes)
    ensures nodes == [] ==> Deepest(nodes) == -1
    ensures nodes != [] ==> exists j :: 0 <= j < |nodes| && nodes[j].depth == Deepest(nodes)
    decreases |nodes|
  {
    if nodes != [] {
      var init, last := nodes[..|nodes| - 1], nodes[|nodes| - 1];
      DeepestIsMax(init);
      var m := Deepest(init);
      forall j | 0 <= j < |init| ensures nodes[j].depth <= Deepest(nodes) {
        assert init[j] == nodes[j];
      }
      if last.depth <= m {
        var j :| 0 <= j < |init| && init[j].depth == m;
        assert nodes[j].depth == Deepest(nodes);
      } else {
        assert nodes[|nodes| - 1].depth == Deepest(nodes);
      }
    }
  }

  /** The last record opens a header exactly when it is deeper than every record before. */
  lemma LastOpens(nodes: seq<ContextNode>)
    requires nodes != []
    ensures Opens(nodes, |nodes| - 1) <==> nodes[|nodes| - 1].depth > Deepest(nodes[..|nodes| - 1])
  {
    var init := nodes[..|nodes| - 1];
    var m := Deepest(init);
    DeepestIsMax(init);
    if nodes[|nodes| - 1].depth > m {
      forall j | 0 <= j < |init| ensures nodes[j].depth < nodes[|nodes| - 1].depth {
        assert init[j] == nodes[j];
      }
    } else if init != [] {
      var j :| 0 <= j < |init| && init[j].depth == m;
      assert nodes[j].depth == m;
    }
  }

  /** The header depth the loop tracks is the deepest depth seen so far, and the lines it
      builds are the blocks of the records in order. */
  lemma {:induction false} LinesAreBlocks(nodes: seq<ContextNode>)
    ensures Lines(nodes).1 == Deepest(nodes)
    ensures Lines(nodes).0 == Blocks(nodes)
    decreases |nodes|
  {
    if nodes != [] {
      var k := |nodes| - 1;
      var init := nodes[..k];
      LinesAreBlocks(init);
      LastOpens(nodes);
      var b, m, last := Blocks(init), Deepest(init), nodes[k];
      assert Lines(nodes) == LinesStep((b, m), last);
      assert Blocks(nodes) == b + Block(nodes, k);
      if last.depth > m {
        assert Block(nodes, k) == [Header(last.depth), Line(last)];
        assert Deepest(nodes) == last.depth;
      } else {
        assert Block(nodes, k) == [Line(last)];
        assert Deepest(nodes) == m;
      }
    }
  }

  /** The depths of `nodes` never decrease (as after the sort by depth and level). */
  ghost predicate DepthOrdered(nodes: seq<ContextNode>) {
    forall i, j :: 0 <= i < j < |nodes| ==> nodes[i].depth <= nodes[j].depth
  }

  /** On records ordered by depth, a header opens the first record and every record
      deeper than the one before it, and no other. */
  lemma OrderedOpens(nodes: seq<ContextNode>, i: nat)
    requires DepthOrdered(nodes) && i < |nodes|
    ensures Opens(nodes, i) <==> i == 0 || nodes[i - 1].depth < nodes[i].depth
  {
    if i > 0 && nodes[i - 1].depth < nodes[i].depth {
      forall j | 0 <= j < i ensures nodes[j].depth < nodes[i].depth {
        assert nodes[j].depth <= nodes[i - 1].depth;
      }
    }
  }

  /** The formatted context is empty exactly when there are no records. */
  lemma FormatEmpty(nodes: seq<ContextNode>)
    ensures FormatContext(nodes) == "" <==> nodes == []
  {
    if nodes != [] {
      LinesAreBlocks(nodes);
      BlocksStart(nodes);
    }
  }

  /** The blocks of a non-empty list of records start with the first record's header. */
  lemma {:induction false} BlocksStart(nodes: seq<ContextNode>)
    requires nodes != []
    ensures |Blocks(nodes)| > 0 && Blocks(nodes)[0] == Header(nodes[0].depth)
    decreases |nodes|
  {
    var init := nodes[..|nodes| - 1];
    if init == [] {
      assert Opens(nodes, 0);
      assert Blocks(nodes) == [Header(nodes[0].depth), Line(nodes[0])];
    } else {
      BlocksStart(init);
      assert init[0] == nodes[0];
      assert Blocks(nodes) == Blocks(init) + Block(nodes, |nodes| - 1);
    }
  }
}
