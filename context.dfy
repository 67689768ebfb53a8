/** The context expander (`get_graph_context` / `_get_graph_context`): a breadth-first
    walk from one seed node over a first-in first-out queue of `(id, depth)` entries,
    with a `visited` set the caller shares between seeds. An entry that is visited or
    deeper than the bound is dropped; otherwise its id is marked visited, the node is
    emitted when its text (or title) is not blank, and its neighbours are enqueued one
    level deeper, reference targets first, then contained children, then containing
    parents. The server variant also skips a neighbour entry that is already queued. */
module Context {
  import opened PyValues
  import opened DiGraphs
  import opened Sorting

  /** One emitted context record. */
  datatype ContextNode = ContextNode(id: string, nodeType: string, title: string, text: string, level: int, depth: nat)

  /** A queue entry `(node_id, depth)`. */
  type Entry = (string, nat)

  /** `data.get("text") or data.get("title") or ""`. */
  function TextOf(d: Attrs): string {
    if Truthy(Get(d, "text")) then Render(Get(d, "text"))
    else if Truthy(Get(d, "title")) then Render(Get(d, "title"))
    else ""
  }

  /** `data.get("level", 0)` as the integer the sort compares. */
  function LevelOf(d: Attrs): int {
    match GetOr(d, "level", Int(0))
    case Int(i) => i
    case _ => 0
  }

  /** The record emitted for node `id` reached at depth `d`. */
  function NodeAt(g: Graph, id: string, d: nat): ContextNode
    requires id in g.attrs
  {
    var data := g.attrs[id];
    ContextNode(id, Render(GetOr(data, "type", Str("unknown"))), Render(GetOr(data, "title", Str(""))),
                TextOf(data), LevelOf(data), d)
  }

  /** The records emitted for node `id`: none when its text is blank. */
  function Emitted(g: Graph, id: string, d: nat): seq<ContextNode>
    requires id in g.attrs
  {
    if IsBlank(TextOf(g.attrs[id])) then [] else [NodeAt(g, id, d)]
  }

  /** `[(nb, next) for nb in ids if ...]`; the server also demands `(nb, next) not in queue`. */
  function Fresh(variant: Variant, pending: seq<Entry>, ids: seq<string>, next: nat): (r: seq<Entry>)
    ensures forall e :: e in r <==> e.1 == next && e.0 in ids && (variant == Server ==> e !in pending)
  {
    if ids == [] then []
    else (if variant == Server && (ids[0], next) in pending then [] else [(ids[0], next)])
         + Fresh(variant, pending, ids[1..], next)
  }

  /** `[n for n in es if n[0] in G.nodes()]`. */
  function InGraph(g: Graph, es: seq<Entry>): (r: seq<Entry>)
    ensures forall e :: e in r <==> e in es && e.0 in g.attrs
  {
    if es == [] then []
    else (if es[0].0 in g.attrs then [es[0]] else []) + InGraph(g, es[1..])
  }

  /** The entries enqueued after expanding `id` at depth `d`, with `pending` the queue
      after the pop: reference targets, then children, then parents. */
  function Neighbours(g: Graph, variant: Variant, pending: seq<Entry>, id: string, d: nat): seq<Entry> {
    InGraph(g, Fresh(variant, pending, RefTargets(g, id), d + 1)
               + Fresh(variant, pending, Children(g, id), d + 1)
               + Fresh(variant, pending, Parents(g, id), d + 1))
  }

  /** The loop state: the queue, the shared visited set and the nodes emitted so far. */
  datatype Bfs = Bfs(queue: seq<Entry>, visited: set<string>, found: seq<ContextNode>)

  /** The walk's termination measure decreases: fewer unvisited nodes, or as many and a
      shorter queue. */
  ghost predicate Shrinks(g: Graph, st: Bfs, r: Bfs) {
    || |g.attrs.Keys - r.visited| < |g.attrs.Keys - st.visited|
    || (g.attrs.Keys - r.visited == g.attrs.Keys - st.visited && |r.queue| < |st.queue|)
  }

  lemma VisitOne(keys: set<string>, visited: set<string>, id: string)
    requires id in keys && id !in visited
    ensures |keys - (visited + {id})| < |keys - visited|
  {
    assert keys - visited == (keys - (visited + {id})) + {id};
  }

  /** One iteration of `while queue`. */
  function Step(g: Graph, depth: int, variant: Variant, st: Bfs): (r: Bfs)
    requires st.queue != []
    ensures Shrinks(g, st, r)
  {
    var id, d := st.queue[0].0, st.queue[0].1;
    var rest := st.queue[1..];
    if id in st.visited || d > depth then Bfs(rest, st.visited, st.found)
    else if id !in g.attrs then
      assert g.attrs.Keys - (st.visited + {id}) == g.attrs.Keys - st.visited;
      Bfs(rest, st.visited + {id}, st.found)
    else
      VisitOne(g.attrs.Keys, st.visited, id);
      Bfs(rest + Neighbours(g, variant, rest, id, d), st.visited + {id}, st.found + Emitted(g, id, d))
  }

  /** The walk until the queue is empty. */
  function Explore(g: Graph, depth: int, variant: Variant, st: Bfs): Bfs
    decreases |g.attrs.Keys - st.visited|, |st.queue|
  {
    if st.queue == [] then st else Explore(g, depth, variant, Step(g, depth, variant, st))
  }

  /** The sort key `(depth_from_start, level)`. */
  function ByDepthLevel(n: ContextNode): Key {
    (n.depth as real, n.level as real)
  }

  /** The walk from `start`. */
  function Walk(g: Graph, start: string, depth: int, visited: set<string>, variant: Variant): Bfs {
    Explore(g, depth, variant, Bfs([(start, 0)], visited, []))
  }

  /** What `get_graph_context` returns, sorted, with the shared set as it is afterwards. */
  function GraphContext(g: Graph, start: string, depth: int, visited: set<string>, variant: Variant): (seq<ContextNode>, set<string>) {
    var r := Walk(g, start, depth, visited, variant);
    (SortBy(r.found, ByDepthLevel), r.visited)
  }

  /** The body of `while queue`: pop the first entry and, when it is new and within
      the depth, mark it visited, emit its record and enqueue its neighbours. */
  method VisitEntry(g: DiGraph, depth: int, variant: Variant, queue: seq<Entry>, visited: set<string>, found: seq<ContextNode>)
    returns (queue': seq<Entry>, visited': set<string>, found': seq<ContextNode>)
    requires queue != []
    ensures Bfs(queue', visited', found') == Step(g.Snapshot(), depth, variant, Bfs(queue, visited, found))
  {
    var id, d := queue[0].0, queue[0].1;
    queue', visited', found' := queue[1..], visited, found;
    if id !in visited && d <= depth {
      visited' := visited + {id};
      if g.HasNode(id) {
        var data := g.attrs[id];
        var text := TextOf(data);
        if !IsBlank(text) {
          found' := found + [ContextNode(id, Render(GetOr(data, "type", Str("unknown"))),
                                         Render(GetOr(data, "title", Str(""))), text, LevelOf(data), d)];
        }
        var neighbours := Fresh(variant, queue', RefTargets(g.Snapshot(), id), d + 1)
                          + Fresh(variant, queue', Children(g.Snapshot(), id), d + 1)
                          + Fresh(variant, queue', Parents(g.Snapshot(), id), d + 1);
        queue' := queue' + InGraph(g.Snapshot(), neighbours);
      }
    }
  }

  /** `get_graph_context(start_node_id, depth, visited)`; the caller's `visited` set is
      passed in and its new value returned. */
  method GetGraphContext(g: DiGraph, start: string, depth: int, visited: set<string>, variant: Variant)
    returns (context: seq<ContextNode>, visitedOut: set<string>)
    ensures (context, visitedOut) == GraphContext(g.Snapshot(), start, depth, visited, variant)
  {
    ghost var gs := g.Snapshot();
    var queue: seq<Entry> := [(start, 0)];
    visitedOut := visited;
    var found: seq<ContextNode> := [];
    while queue != []
      invariant Explore(gs, depth, variant, Bfs(queue, visitedOut, found)) == Walk(gs, start, depth, visited, variant)
      decreases |gs.attrs.Keys - visitedOut|, |queue|
    {
      queue, visitedOut, found := VisitEntry(g, depth, variant, queue, visitedOut, found);
    }
    context := SortBy(found, ByDepthLevel);
  }

  // ---------------------------------------------------------------------------
  // Neighbours.

  /** Two nodes are linked when one refers to or contains the other, or is contained by it. */
  ghost predicate Linked(g: Graph, u: string, v: string) {
    Relation(g, u, v) == Str("references") || Relation(g, u, v) == Str("contains") || Relation(g, v, u) == Str("contains")
  }

  /** `p` is a walk along linked steps. */
  ghost predicate LinkedPath(g: Graph, p: seq<string>) {
    forall i :: 0 <= i < |p| - 1 ==> Linked(g, p[i], p[i + 1])
  }

  /** `v` can be reached from `s` in exactly `n` linked steps. */
  ghost predicate Reach(g: Graph, s: string, v: string, n: nat) {
    exists p :: |p| == n + 1 && p[0] == s && p[n] == v && LinkedPath(g, p)
  }

  lemma ReachStart(g: Graph, s: string)
    ensures Reach(g, s, s, 0)
  {
    assert LinkedPath(g, [s]);
  }

  lemma ReachNext(g: Graph, s: string, u: string, n: nat, v: string)
    requires Reach(g, s, u, n) && Linked(g, u, v)
    ensures Reach(g, s, v, n + 1)
  {
    var p :| |p| == n + 1 && p[0] == s && p[n] == u && LinkedPath(g, p);
    var q := p + [v];
    assert q[n] == u && q[n + 1] == v;
    forall i | 0 <= i < |q| - 1 ensures Linked(g, q[i], q[i + 1]) {
      if i < n {
        assert q[i] == p[i] && q[i + 1] == p[i + 1];
      }
    }
    assert |q| == n + 2 && q[0] == s && q[n + 1] == v && LinkedPath(g, q);
  }

  /** Every enqueued entry is a node linked to `id`, one level deeper. */
  lemma NeighboursSound(g: Graph, variant: Variant, pending: seq<Entry>, id: string, d: nat)
    ensures forall e :: e in Neighbours(g, variant, pending, id, d) ==> e.1 == d + 1 && e.0 in g.attrs && Linked(g, id, e.0)
  {
  }

  /** Every node linked to `id` is enqueued one level deeper, unless the server finds
      that entry already queued. */
  lemma NeighboursComplete(g: Graph, variant: Variant, pending: seq<Entry>, id: string, d: nat, v: string)
    requires Valid(g) && v in g.attrs && Linked(g, id, v)
    ensures (v, d + 1) in Neighbours(g, variant, pending, id, d) || (variant == Server && (v, d + 1) in pending)
  {
    var e: Entry := (v, d + 1);
    if !(variant == Server && e in pending) {
      if Relation(g, id, v) == Str("references") {
        assert v in RefTargets(g, id);
      } else if Relation(g, id, v) == Str("contains") {
        assert v in Children(g, id);
      } else {
        assert v in Predecessors(g, id);
        assert v in Parents(g, id);
      }
    }
  }

  /** After expanding `id`, every node linked to it is queued one level deeper. */
  lemma NeighboursQueued(g: Graph, variant: Variant, pending: seq<Entry>, id: string, d: nat)
    requires Valid(g)
    ensures forall w :: w in g.attrs && Linked(g, id, w) ==> (w, d + 1) in pending + Neighbours(g, variant, pending, id, d)
  {
    forall w | w in g.attrs && Linked(g, id, w) ensures (w, d + 1) in pending + Neighbours(g, variant, pending, id, d) {
      NeighboursComplete(g, variant, pending, id, d, w);
    }
  }

  /** The server never enqueues an entry that is already queued; the service does. */
  lemma ServerSkipsQueued(g: Graph, pending: seq<Entry>, id: string, d: nat)
    ensures forall e :: e in Neighbours(g, Server, pending, id, d) ==> e !in pending
  {
  }

  lemma ServiceKeepsQueued(g: Graph, pending: seq<Entry>, id: string, d: nat, v: string)
    requires v in g.attrs && v in RefTargets(g, id)
    ensures (v, d + 1) in Neighbours(g, Service, pending, id, d)
  {
  }

  // ---------------------------------------------------------------------------
  // Invariants of the walk, one family at a time.

  /** Every emitted record is the record of a graph node with non-blank text, at a
      depth within the bound. */
  ghost predicate FoundRecords(g: Graph, depth: int, found: seq<ContextNode>) {
    forall i :: 0 <= i < |found| ==>
      && found[i].id in g.attrs && found[i] == NodeAt(g, found[i].id, found[i].depth)
      && !IsBlank(found[i].text) && found[i].depth <= depth
  }

  lemma StepRecords(g: Graph, depth: int, variant: Variant, st: Bfs)
    requires st.queue != [] && FoundRecords(g, depth, st.found)
    ensures FoundRecords(g, depth, Step(g, depth, variant, st).found)
  {
  }

  lemma {:induction false} ExploreRecords(g: Graph, depth: int, variant: Variant, st: Bfs)
    requires FoundRecords(g, depth, st.found)
    ensures FoundRecords(g, depth, Explore(g, depth, variant, st).found)
    decreases |g.attrs.Keys - st.visited|, |st.queue|
  {
    if st.queue != [] {
      StepRecords(g, depth, variant, st);
      ExploreRecords(g, depth, variant, Step(g, depth, variant, st));
    }
  }

  /** The shared set only grows; every emitted id is in it now, was not in it before the
      call, and is emitted once. */
  ghost predicate Unique(before: set<string>, st: Bfs) {
    && before <= st.visited
    && (forall i :: 0 <= i < |st.found| ==> st.found[i].id in st.visited && st.found[i].id !in before)
    && (forall i, j :: 0 <= i < j < |st.found| ==> st.found[i].id != st.found[j].id)
  }

  lemma StepUnique(g: Graph, depth: int, variant: Variant, before: set<string>, st: Bfs)
    requires st.queue != [] && Unique(before, st)
    ensures Unique(before, Step(g, depth, variant, st))
  {
    var id, d := st.queue[0].0, st.queue[0].1;
    var r := Step(g, depth, variant, st);
    if !(id in st.visited || d > depth) && id in g.attrs {
      var extra := Emitted(g, id, d);
      assert r.found == st.found + extra;
      forall i, j | 0 <= i < j < |r.found| ensures r.found[i].id != r.found[j].id {
        if j >= |st.found| {
          assert r.found[j].id == id;
          assert r.found[i].id in st.visited;
        }
      }
    }
  }

  lemma {:induction false} ExploreUnique(g: Graph, depth: int, variant: Variant, before: set<string>, st: Bfs)
    requires Unique(before, st)
    ensures Unique(before, Explore(g, depth, variant, st))
    decreases |g.attrs.Keys - st.visited|, |st.queue|
  {
    if st.queue != [] {
      StepUnique(g, depth, variant, before, st);
      ExploreUnique(g, depth, variant, before, Step(g, depth, variant, st));
    }
  }

  /** Only the seed is queued at depth 0, so only the seed can be emitted at depth 0. */
  ghost predicate Seeded(start: string, st: Bfs) {
    && (forall e :: e in st.queue && e.1 == 0 ==> e.0 == start)
    && (forall i :: 0 <= i < |st.found| && st.found[i].depth == 0 ==> st.found[i].id == start)
  }

  lemma StepSeeded(g: Graph, depth: int, variant: Variant, start: string, st: Bfs)
    requires st.queue != [] && Seeded(start, st)
    ensures Seeded(start, Step(g, depth, variant, st))
  {
    var id, d := st.queue[0].0, st.queue[0].1;
    assert st.queue[0] in st.queue;
    forall e | e in st.queue[1..] ensures e in st.queue {
    }
    if !(id in st.visited || d > depth) && id in g.attrs {
      NeighboursSound(g, variant, st.queue[1..], id, d);
    }
  }

  lemma {:induction false} ExploreSeeded(g: Graph, depth: int, variant: Variant, start: string, st: Bfs)
    requires Seeded(start, st)
    ensures Seeded(start, Explore(g, depth, variant, st))
    decreases |g.attrs.Keys - st.visited|, |st.queue|
  {
    if st.queue != [] {
      StepSeeded(g, depth, variant, start, st);
      ExploreSeeded(g, depth, variant, start, Step(g, depth, variant, st));
    }
  }

  /** Every queued entry and every emitted record sits at a node reachable from the
      seed in exactly its depth of linked steps. */
  ghost predicate Reached(g: Graph, start: string, st: Bfs) {
    && (forall e :: e in st.queue ==> Reach(g, start, e.0, e.1))
    && (forall i :: 0 <= i < |st.found| ==> Reach(g, start, st.found[i].id, st.found[i].depth))
  }

  lemma StepReached(g: Graph, depth: int, variant: Variant, start: string, st: Bfs)
    requires st.queue != [] && Reached(g, start, st)
    ensures Reached(g, start, Step(g, depth, variant, st))
  {
    var id, d := st.queue[0].0, st.queue[0].1;
    var rest := st.queue[1..];
    var r := Step(g, depth, variant, st);
    assert st.queue[0] in st.queue;
    assert Reach(g, start, id, d);
    if id in st.visited || d > depth || id !in g.attrs {
      assert r.queue == rest && r.found == st.found;
      forall e | e in rest ensures Reach(g, start, e.0, e.1) {
        assert e in st.queue;
      }
    } else {
      var ns := Neighbours(g, variant, rest, id, d);
      assert r.queue == rest + ns;
      assert r.found == st.found + Emitted(g, id, d);
      NeighboursSound(g, variant, rest, id, d);
      forall e | e in rest + ns ensures Reach(g, start, e.0, e.1) {
        if e in rest {
          assert e in st.queue;
        } else {
          ReachNext(g, start, id, d, e.0);
        }
      }
      forall i | 0 <= i < |r.found| ensures Reach(g, start, r.found[i].id, r.found[i].depth) {
        if i >= |st.found| {
          assert r.found[i] == NodeAt(g, id, d);
        }
      }
    }
  }

  lemma {:induction false} ExploreReached(g: Graph, depth: int, variant: Variant, start: string, st: Bfs)
    requires Reached(g, start, st)
    ensures Reached(g, start, Explore(g, depth, variant, st))
    decreases |g.attrs.Keys - st.visited|, |st.queue|
  {
    if st.queue != [] {
      StepReached(g, depth, variant, start, st);
      ExploreReached(g, depth, variant, start, Step(g, depth, variant, st));
    }
  }

  // ---------------------------------------------------------------------------
  // What `get_graph_context` returns.

  /** The result is sorted by `(depth_from_start, level)` and holds exactly the records
      the walk emitted. */
  lemma ContextSorted(g: Graph, start: string, depth: int, visited: set<string>, variant: Variant)
    ensures var ctx := GraphContext(g, start, depth, visited, variant).0;
      SortedBy(ctx, ByDepthLevel) && multiset(ctx) == multiset(Walk(g, start, depth, visited, variant).found)
  {
    SortByCorrect(Walk(g, start, depth, visited, variant).found, ByDepthLevel);
  }

  /** Every returned record is the record of a graph node whose text is not blank, at a
      depth within the bound. */
  lemma ContextRecords(g: Graph, start: string, depth: int, visited: set<string>, variant: Variant)
    ensures forall n :: n in GraphContext(g, start, depth, visited, variant).0 ==>
      && n.id in g.attrs && n == NodeAt(g, n.id, n.depth) && !IsBlank(n.text) && n.depth <= depth
  {
    var st := Bfs([(start, 0)], visited, []);
    ExploreRecords(g, depth, variant, st);
    var found := Walk(g, start, depth, visited, variant).found;
    ContextSorted(g, start, depth, visited, variant);
    forall n | n in GraphContext(g, start, depth, visited, variant).0
      ensures && n.id in g.attrs && n == NodeAt(g, n.id, n.depth) && !IsBlank(n.text) && n.depth <= depth
    {
      assert n in multiset(found);
      var i :| 0 <= i < |found| && found[i] == n;
    }
  }

  /** Every returned record sits at a node reachable from the seed in exactly its depth
      of linked steps. */
  lemma ContextReach(g: Graph, start: string, depth: int, visited: set<string>, variant: Variant)
    ensures forall n :: n in GraphContext(g, start, depth, visited, variant).0 ==> Reach(g, start, n.id, n.depth)
  {
    var st := Bfs([(start, 0)], visited, []);
    ReachStart(g, start);
    assert Reached(g, start, st);
    ExploreReached(g, depth, variant, start, st);
    var found := Walk(g, start, depth, visited, variant).found;
    assert forall i :: 0 <= i < |found| ==> Reach(g, start, found[i].id, found[i].depth);
    ContextSorted(g, start, depth, visited, variant);
    forall n | n in GraphContext(g, start, depth, visited, variant).0 ensures Reach(g, start, n.id, n.depth) {
      assert n in multiset(found);
      var i :| 0 <= i < |found| && found[i] == n;
    }
  }

  function NodeId(n: ContextNode): string {
    n.id
  }

  /** The shared set grows by the returned ids: each was not in it before the call, and
      none is returned twice. */
  lemma ContextUnique(g: Graph, start: string, depth: int, visited: set<string>, variant: Variant)
    ensures var (ctx, after) := GraphContext(g, start, depth, visited, variant);
      && visited <= after
      && (forall n :: n in ctx ==> n.id in after && n.id !in visited)
      && KeysDistinct(ctx, NodeId)
  {
    var st := Bfs([(start, 0)], visited, []);
    ExploreUnique(g, depth, variant, visited, st);
    var found := Walk(g, start, depth, visited, variant).found;
    ContextSorted(g, start, depth, visited, variant);
    var ctx := GraphContext(g, start, depth, visited, variant).0;
    assert KeysDistinct(found, NodeId);
    PermutationKeysDistinct(found, ctx, NodeId);
    forall n | n in ctx ensures n.id in GraphContext(g, start, depth, visited, variant).1 && n.id !in visited {
      assert n in multiset(found);
      var i :| 0 <= i < |found| && found[i] == n;
    }
  }

  /** Only the seed can be returned at depth 0. */
  lemma ContextDepthZeroSeed(g: Graph, start: string, depth: int, visited: set<string>, variant: Variant, n: ContextNode)
    requires n in GraphContext(g, start, depth, visited, variant).0 && n.depth == 0
    ensures n.id == start
  {
    var st := Bfs([(start, 0)], visited, []);
    ExploreSeeded(g, depth, variant, start, st);
    var found := Walk(g, start, depth, visited, variant).found;
    ContextSorted(g, start, depth, visited, variant);
    assert n in multiset(found);
    var i :| 0 <= i < |found| && found[i] == n;
  }

  /** With `depth = 0` (or less) the result is empty or the seed's record alone. */
  lemma ContextZeroShape(g: Graph, start: string, depth: int, visited: set<string>, variant: Variant)
    requires depth <= 0
    ensures var ctx := GraphContext(g, start, depth, visited, variant).0;
      || ctx == []
      || (&& depth == 0 && start in g.attrs && start !in visited && !IsBlank(TextOf(g.attrs[start]))
          && ctx == [NodeAt(g, start, 0)])
  {
    var ctx := GraphContext(g, start, depth, visited, variant).0;
    if ctx != [] {
      var n := ctx[0];
      ContextRecords(g, start, depth, visited, variant);
      ContextUnique(g, start, depth, visited, variant);
      ContextDepthZeroSeed(g, start, depth, visited, variant, n);
      assert n in ctx;
      if |ctx| >= 2 {
        assert ctx[1] in ctx;
        ContextDepthZeroSeed(g, start, depth, visited, variant, ctx[1]);
      }
    }
  }

  /** With `depth = 0` (or less) only the seed can be returned; in a well-formed graph
      the seed's record is returned exactly when the bound is 0, the seed is a new node
      and its text is not blank. */
  lemma ContextDepthZero(g: Graph, start: string, depth: int, visited: set<string>, variant: Variant)
    requires depth <= 0
    ensures forall n :: n in GraphContext(g, start, depth, visited, variant).0 ==> n.id == start && n.depth == 0
    ensures Valid(g) ==>
      (GraphContext(g, start, depth, visited, variant).0 ==
       if depth == 0 && start in g.attrs && start !in visited then Emitted(g, start, 0) else [])
  {
    ContextZeroShape(g, start, depth, visited, variant);
    if Valid(g) && depth == 0 && start in g.attrs && start !in visited && !IsBlank(TextOf(g.attrs[start])) {
      ContextSeed(g, start, depth, visited, variant);
    }
  }

  // ---------------------------------------------------------------------------
  // Completeness: the walk is a breadth-first search. Beside the state, the proof
  // follows the depth at which each newly visited node was marked (`marks`) and the
  // depth of the last entry that was marked (`front`).

  /** The marks and the front after one iteration. */
  function Mark(depth: int, st: Bfs, marks: map<string, nat>, front: nat): (map<string, nat>, nat)
    requires st.queue != []
  {
    var id, d := st.queue[0].0, st.queue[0].1;
    if id in st.visited || d > depth then (marks, front) else (marks[id := d], d)
  }

  /** The marks and the front when the queue is empty. */
  function Marks(g: Graph, depth: int, variant: Variant, st: Bfs, marks: map<string, nat>, front: nat): (map<string, nat>, nat)
    decreases |g.attrs.Keys - st.visited|, |st.queue|
  {
    if st.queue == [] then (marks, front)
    else
      var (m, f) := Mark(depth, st, marks, front);
      Marks(g, depth, variant, Step(g, depth, variant, st), m, f)
  }

  /** The queue is in order of depth and spans at most the front and the level below
      it; no node was marked deeper than the front. */
  ghost predicate Layered(queue: seq<Entry>, marks: map<string, nat>, front: nat) {
    && (forall i, j :: 0 <= i < j < |queue| ==> queue[i].1 <= queue[j].1)
    && (forall e :: e in queue ==> front <= e.1 <= front + 1)
    && (forall x :: x in marks ==> marks[x] <= front)
  }

  /** The marked nodes are the ones this walk added to the shared set, and each one
      whose text is not blank was emitted at its mark. */
  ghost predicate Marked(g: Graph, before: set<string>, st: Bfs, marks: map<string, nat>) {
    && before <= st.visited
    && (forall x :: x in marks <==> x in st.visited && x !in before)
    && (forall x :: x in marks && x in g.attrs && !IsBlank(TextOf(g.attrs[x])) ==> NodeAt(g, x, marks[x]) in st.found)
  }

  /** The seed is marked at depth 0, or still queued at depth 0. */
  ghost predicate SeedPending(depth: int, before: set<string>, start: string, st: Bfs, marks: map<string, nat>) {
    depth >= 0 && start !in before ==> (start in marks && marks[start] == 0) || (start, 0) in st.queue
  }

  ghost predicate Tracked(g: Graph, depth: int, before: set<string>, start: string, st: Bfs, marks: map<string, nat>, front: nat) {
    Layered(st.queue, marks, front) && Marked(g, before, st, marks) && SeedPending(depth, before, start, st, marks)
  }

  /** Every new node linked to a node marked above the bound is marked at most one
      level deeper, or queued exactly one level deeper. */
  ghost predicate Closed(g: Graph, depth: int, before: set<string>, queue: seq<Entry>, marks: map<string, nat>) {
    forall x, w :: x in marks && x in g.attrs && marks[x] < depth && w in g.attrs && w !in before && Linked(g, x, w) ==>
      (w in marks && marks[w] <= marks[x] + 1) || (w, marks[x] + 1) in queue
  }

  lemma QueueTail(q: seq<Entry>)
    requires q != []
    ensures forall e :: e in q[1..] ==> e in q
    ensures forall k :: 0 <= k < |q| - 1 ==> q[1..][k] == q[k + 1]
  {
  }

  /** The shape of one iteration that marks its entry. */
  lemma VisitShape(g: Graph, depth: int, variant: Variant, st: Bfs)
    requires st.queue != [] && st.queue[0].0 !in st.visited && st.queue[0].1 <= depth
    ensures var id, d := st.queue[0].0, st.queue[0].1;
      var r := Step(g, depth, variant, st);
      && r.queue == st.queue[1..] + (if id in g.attrs then Neighbours(g, variant, st.queue[1..], id, d) else [])
      && r.visited == st.visited + {id}
      && r.found == st.found + (if id in g.attrs then Emitted(g, id, d) else [])
  {
  }

  /** An entry that is dropped keeps every invariant. */
  lemma DropTracked(g: Graph, depth: int, variant: Variant, before: set<string>, start: string, st: Bfs, marks: map<string, nat>, front: nat)
    requires st.queue != [] && Tracked(g, depth, before, start, st, marks, front)
    requires st.queue[0].0 in st.visited || st.queue[0].1 > depth
    ensures Step(g, depth, variant, st) == Bfs(st.queue[1..], st.visited, st.found)
    ensures Tracked(g, depth, before, start, Step(g, depth, variant, st), marks, front)
  {
    var rest := st.queue[1..];
    QueueTail(st.queue);
    assert st.queue[0] in st.queue;
    if depth >= 0 && start !in before && (start, 0) in st.queue && (start, 0) !in rest {
      assert st.queue[0] == (start, 0);
    }
  }

  /** Popping the front entry and appending entries one level below it keeps the queue
      layered, with the popped depth as the new front. */
  lemma LayeredVisit(q: seq<Entry>, ns: seq<Entry>, marks: map<string, nat>, front: nat)
    requires q != [] && Layered(q, marks, front)
    requires forall e :: e in ns ==> e.1 == q[0].1 + 1
    ensures Layered(q[1..] + ns, marks[q[0].0 := q[0].1], q[0].1)
  {
    var d := q[0].1;
    var rest := q[1..];
    var r := rest + ns;
    QueueTail(q);
    assert q[0] in q;
    forall i, j | 0 <= i < j < |r| ensures r[i].1 <= r[j].1 {
      if j < |rest| {
        assert r[i] == q[i + 1] && r[j] == q[j + 1];
      } else if i < |rest| {
        assert r[i] == q[i + 1] && r[j] in ns;
      } else {
        assert r[i] in ns && r[j] in ns;
      }
    }
    forall e | e in r ensures d <= e.1 <= d + 1 {
      if e in rest {
        var k :| 0 <= k < |rest| && rest[k] == e;
        assert q[0].1 <= q[k + 1].1;
      }
    }
  }

  /** Visiting a new node and emitting it (when its text is not blank) keeps the marks
      in step with the shared set and the records. */
  lemma MarkedVisit(g: Graph, before: set<string>, st: Bfs, r: Bfs, marks: map<string, nat>, id: string, d: nat)
    requires Marked(g, before, st, marks) && id !in st.visited
    requires r.visited == st.visited + {id} && st.found <= r.found
    requires id in g.attrs && !IsBlank(TextOf(g.attrs[id])) ==> NodeAt(g, id, d) in r.found
    ensures Marked(g, before, r, marks[id := d])
  {
    var m := marks[id := d];
    forall x | x in m && x in g.attrs && !IsBlank(TextOf(g.attrs[x])) ensures NodeAt(g, x, m[x]) in r.found {
      if x != id {
        var k :| 0 <= k < |st.found| && st.found[k] == NodeAt(g, x, marks[x]);
        assert r.found[k] == st.found[k];
      }
    }
  }

  /** Popping the front entry keeps the seed marked or queued. */
  lemma SeedVisit(depth: int, before: set<string>, start: string, st: Bfs, r: Bfs, marks: map<string, nat>)
    requires st.queue != [] && st.queue[0].0 !in marks && SeedPending(depth, before, start, st, marks)
    requires forall e :: e in st.queue[1..] ==> e in r.queue
    ensures SeedPending(depth, before, start, r, marks[st.queue[0].0 := st.queue[0].1])
  {
    if depth >= 0 && start !in before && (start, 0) in st.queue && st.queue[0] != (start, 0) {
      var k :| 0 <= k < |st.queue| && st.queue[k] == (start, 0);
      assert st.queue[1..][k - 1] == (start, 0);
    }
  }

  /** A new entry within the bound keeps every invariant, marked at its depth. */
  lemma VisitTracked(g: Graph, depth: int, variant: Variant, before: set<string>, start: string, st: Bfs, marks: map<string, nat>, front: nat)
    requires st.queue != [] && Tracked(g, depth, before, start, st, marks, front)
    requires st.queue[0].0 !in st.visited && st.queue[0].1 <= depth
    ensures Tracked(g, depth, before, start, Step(g, depth, variant, st), marks[st.queue[0].0 := st.queue[0].1], st.queue[0].1)
  {
    var id, d := st.queue[0].0, st.queue[0].1;
    var rest := st.queue[1..];
    var r := Step(g, depth, variant, st);
    VisitShape(g, depth, variant, st);
    if id in g.attrs {
      var ns := Neighbours(g, variant, rest, id, d);
      NeighboursSound(g, variant, rest, id, d);
      LayeredVisit(st.queue, ns, marks, front);
      assert r.found == st.found + Emitted(g, id, d);
      MarkedVisit(g, before, st, r, marks, id, d);
    } else {
      LayeredVisit(st.queue, [], marks, front);
      assert rest + [] == rest;
      MarkedVisit(g, before, st, r, marks, id, d);
    }
    SeedVisit(depth, before, start, st, r, marks);
  }

  /** One iteration keeps every invariant, with the marks and front of `Mark`. */
  lemma StepTracked(g: Graph, depth: int, variant: Variant, before: set<string>, start: string, st: Bfs, marks: map<string, nat>, front: nat)
    requires st.queue != [] && Tracked(g, depth, before, start, st, marks, front)
    ensures var (m, f) := Mark(depth, st, marks, front);
      Tracked(g, depth, before, start, Step(g, depth, variant, st), m, f)
  {
    if st.queue[0].0 in st.visited || st.queue[0].1 > depth {
      DropTracked(g, depth, variant, before, start, st, marks, front);
    } else {
      VisitTracked(g, depth, variant, before, start, st, marks, front);
    }
  }

  lemma DropClosed(g: Graph, depth: int, variant: Variant, before: set<string>, start: string, st: Bfs, marks: map<string, nat>, front: nat)
    requires st.queue != [] && Tracked(g, depth, before, start, st, marks, front) && Closed(g, depth, before, st.queue, marks)
    requires st.queue[0].0 in st.visited || st.queue[0].1 > depth
    ensures Closed(g, depth, before, Step(g, depth, variant, st).queue, marks)
  {
    var r := Step(g, depth, variant, st);
    assert r.queue == st.queue[1..];
    assert st.queue[0] in st.queue;
    forall x, w | x in marks && x in g.attrs && marks[x] < depth && w in g.attrs && w !in before && Linked(g, x, w)
      ensures (w in marks && marks[w] <= marks[x] + 1) || (w, marks[x] + 1) in r.queue
    {
    }
  }

  /** Popping a new entry `(id, d)` within the bound and appending entries that hold
      every node linked to `id`, one level deeper, keeps the queue closed. */
  lemma ClosedVisit(g: Graph, depth: int, before: set<string>, q: seq<Entry>, ns: seq<Entry>, marks: map<string, nat>)
    requires q != [] && q[0].0 !in marks && Closed(g, depth, before, q, marks)
    requires q[0].0 in g.attrs ==> forall w :: w in g.attrs && Linked(g, q[0].0, w) ==> (w, q[0].1 + 1) in q[1..] + ns
    ensures Closed(g, depth, before, q[1..] + ns, marks[q[0].0 := q[0].1])
  {
    var id, d := q[0].0, q[0].1;
    var m := marks[id := d];
    var r := q[1..] + ns;
    assert q == [q[0]] + q[1..];
    forall x, w | x in m && x in g.attrs && m[x] < depth && w in g.attrs && w !in before && Linked(g, x, w)
      ensures (w in m && m[w] <= m[x] + 1) || (w, m[x] + 1) in r
    {
      if x != id && !(w in marks && marks[w] <= marks[x] + 1) && (w, marks[x] + 1) !in q[1..] {
        assert (w, marks[x] + 1) in q;
        assert q[0] == (w, marks[x] + 1);
      }
    }
  }

  /** Expanding the front entry of a closed queue keeps it closed. */
  lemma ClosedExpand(g: Graph, depth: int, variant: Variant, before: set<string>, q: seq<Entry>, marks: map<string, nat>)
    requires Valid(g) && q != [] && q[0].0 !in marks && Closed(g, depth, before, q, marks)
    ensures Closed(g, depth, before, q[1..] + Neighbours(g, variant, q[1..], q[0].0, q[0].1), marks[q[0].0 := q[0].1])
  {
    var ns := Neighbours(g, variant, q[1..], q[0].0, q[0].1);
    NeighboursQueued(g, variant, q[1..], q[0].0, q[0].1);
    ClosedVisit(g, depth, before, q, ns, marks);
  }

  lemma VisitClosed(g: Graph, depth: int, variant: Variant, before: set<string>, st: Bfs, marks: map<string, nat>)
    requires Valid(g)
    requires st.queue != [] && st.queue[0].0 !in marks && Closed(g, depth, before, st.queue, marks)
    requires st.queue[0].0 !in st.visited && st.queue[0].1 <= depth
    ensures Closed(g, depth, before, Step(g, depth, variant, st).queue, marks[st.queue[0].0 := st.queue[0].1])
  {
    var id, d := st.queue[0].0, st.queue[0].1;
    var rest := st.queue[1..];
    VisitShape(g, depth, variant, st);
    if id in g.attrs {
      ClosedExpand(g, depth, variant, before, st.queue, marks);
    } else {
      ClosedVisit(g, depth, before, st.queue, [], marks);
      assert rest + [] == rest;
    }
  }

  lemma StepClosed(g: Graph, depth: int, variant: Variant, before: set<string>, start: string, st: Bfs, marks: map<string, nat>, front: nat)
    requires Valid(g)
    requires st.queue != [] && Tracked(g, depth, before, start, st, marks, front) && Closed(g, depth, before, st.queue, marks)
    ensures Closed(g, depth, before, Step(g, depth, variant, st).queue, Mark(depth, st, marks, front).0)
  {
    if st.queue[0].0 in st.visited || st.queue[0].1 > depth {
      DropClosed(g, depth, variant, before, start, st, marks, front);
    } else {
      assert st.queue[0].0 !in marks;
      VisitClosed(g, depth, variant, before, st, marks);
    }
  }

  /** The invariants hold when the queue is empty. */
  lemma {:induction false} ExploreTracked(g: Graph, depth: int, variant: Variant, before: set<string>, start: string, st: Bfs, marks: map<string, nat>, front: nat)
    requires Tracked(g, depth, before, start, st, marks, front)
    ensures var (m, f) := Marks(g, depth, variant, st, marks, front);
      && Explore(g, depth, variant, st).queue == []
      && Tracked(g, depth, before, start, Explore(g, depth, variant, st), m, f)
    decreases |g.attrs.Keys - st.visited|, |st.queue|
  {
    if st.queue != [] {
      StepTracked(g, depth, variant, before, start, st, marks, front);
      var (m, f) := Mark(depth, st, marks, front);
      ExploreTracked(g, depth, variant, before, start, Step(g, depth, variant, st), m, f);
    }
  }

  lemma {:induction false} ExploreClosed(g: Graph, depth: int, variant: Variant, before: set<string>, start: string, st: Bfs, marks: map<string, nat>, front: nat)
    requires Valid(g) && Tracked(g, depth, before, start, st, marks, front) && Closed(g, depth, before, st.queue, marks)
    ensures Closed(g, depth, before, Explore(g, depth, variant, st).queue, Marks(g, depth, variant, st, marks, front).0)
    decreases |g.attrs.Keys - st.visited|, |st.queue|
  {
    if st.queue != [] {
      StepTracked(g, depth, variant, before, start, st, marks, front);
      StepClosed(g, depth, variant, before, start, st, marks, front);
      var (m, f) := Mark(depth, st, marks, front);
      ExploreClosed(g, depth, variant, before, start, Step(g, depth, variant, st), m, f);
    }
  }

  /** Both ends of a link are nodes of the graph. */
  lemma LinkedNodes(g: Graph, u: string, v: string)
    requires Valid(g) && Linked(g, u, v)
    ensures u in g.attrs && v in g.attrs
  {
    if Relation(g, u, v) == Nil || (Relation(g, u, v) != Str("references") && Relation(g, u, v) != Str("contains")) {
      assert (v, u) in g.edgeAttrs;
    } else {
      assert (u, v) in g.edgeAttrs;
    }
  }

  /** `v` can be reached from `s` in exactly `n` linked steps through nodes none of
      which is in `avoid`. */
  ghost predicate ReachAvoiding(g: Graph, s: string, v: string, n: nat, avoid: set<string>) {
    exists p :: |p| == n + 1 && p[0] == s && p[n] == v && LinkedPath(g, p) && (forall k :: 0 <= k < |p| ==> p[k] !in avoid)
  }

  /** Along a path of new nodes from a node marked at 0, with an empty queue and the
      queue closed, the `i`-th node is marked at most `i` deep. */
  lemma {:induction false} PathMarked(g: Graph, depth: int, before: set<string>, marks: map<string, nat>, p: seq<string>, i: nat)
    requires Valid(g) && Closed(g, depth, before, [], marks)
    requires |p| >= 1 && |p| - 1 <= depth && p[0] in marks && marks[p[0]] == 0 && LinkedPath(g, p)
    requires forall k :: 0 <= k < |p| ==> p[k] in g.attrs && p[k] !in before
    requires i < |p|
    ensures p[i] in marks && marks[p[i]] <= i
  {
    if i > 0 {
      PathMarked(g, depth, before, marks, p, i - 1);
      assert Linked(g, p[i - 1], p[i]);
      assert p[i - 1] in g.attrs && p[i] in g.attrs && p[i] !in before;
    }
  }

  /** The invariants at the start of the walk. */
  lemma WalkStart(g: Graph, start: string, depth: int, visited: set<string>)
    ensures var st := Bfs([(start, 0)], visited, []);
      Tracked(g, depth, visited, start, st, map[], 0) && Closed(g, depth, visited, st.queue, map[])
  {
  }

  /** After the walk, the marks are the new nodes; the seed is marked at 0 when it is new
      and the bound is not negative; the marks are closed under links below the bound. */
  lemma WalkMarks(g: Graph, start: string, depth: int, visited: set<string>, variant: Variant)
    requires Valid(g)
    ensures var r := Walk(g, start, depth, visited, variant);
      var m := Marks(g, depth, variant, Bfs([(start, 0)], visited, []), map[], 0).0;
      && Marked(g, visited, r, m)
      && (depth >= 0 && start !in visited ==> start in m && m[start] == 0)
      && Closed(g, depth, visited, [], m)
  {
    var st := Bfs([(start, 0)], visited, []);
    WalkStart(g, start, depth, visited);
    ExploreTracked(g, depth, variant, visited, start, st, map[], 0);
    ExploreClosed(g, depth, variant, visited, start, st, map[], 0);
  }

  /** With a bound that is not negative, the seed is in the shared set afterwards. */
  lemma ContextVisitsSeed(g: Graph, start: string, depth: int, visited: set<string>, variant: Variant)
    requires depth >= 0
    ensures start in GraphContext(g, start, depth, visited, variant).1
  {
    var st := Bfs([(start, 0)], visited, []);
    WalkStart(g, start, depth, visited);
    ExploreTracked(g, depth, variant, visited, start, st, map[], 0);
  }

  /** Every node with text that the walk emitted is in the returned list. */
  lemma WalkedInContext(g: Graph, start: string, depth: int, visited: set<string>, variant: Variant, n: ContextNode)
    requires n in Walk(g, start, depth, visited, variant).found
    ensures n in GraphContext(g, start, depth, visited, variant).0
  {
    ContextSorted(g, start, depth, visited, variant);
    assert n in multiset(Walk(g, start, depth, visited, variant).found);
  }

  /** Completeness: a node with text that is reachable from the seed in `n <= depth`
      linked steps through nodes outside the shared set is returned, at a depth of at
      most `n`. */
  lemma ContextComplete(g: Graph, start: string, depth: int, visited: set<string>, variant: Variant, v: string, n: nat)
    requires Valid(g) && ReachAvoiding(g, start, v, n, visited) && n <= depth
    requires v in g.attrs && !IsBlank(TextOf(g.attrs[v]))
    ensures exists k: nat :: k <= n && NodeAt(g, v, k) in GraphContext(g, start, depth, visited, variant).0
  {
    var p :| |p| == n + 1 && p[0] == start && p[n] == v && LinkedPath(g, p) && (forall k :: 0 <= k < |p| ==> p[k] !in visited);
    var m := Marks(g, depth, variant, Bfs([(start, 0)], visited, []), map[], 0).0;
    WalkMarks(g, start, depth, visited, variant);
    forall k | 0 <= k < |p| ensures p[k] in g.attrs {
      if k < n {
        LinkedNodes(g, p[k], p[k + 1]);
      }
    }
    PathMarked(g, depth, visited, m, p, n);
    WalkedInContext(g, start, depth, visited, variant, NodeAt(g, v, m[v]));
  }

  /** With nothing visited beforehand, every node with text reachable from the seed in
      `n <= depth` linked steps is returned, at a depth of at most `n`. */
  lemma ContextCompleteFresh(g: Graph, start: string, depth: int, variant: Variant, v: string, n: nat)
    requires Valid(g) && Reach(g, start, v, n) && n <= depth
    requires v in g.attrs && !IsBlank(TextOf(g.attrs[v]))
    ensures exists k: nat :: k <= n && NodeAt(g, v, k) in GraphContext(g, start, depth, {}, variant).0
  {
    var p :| |p| == n + 1 && p[0] == start && p[n] == v && LinkedPath(g, p);
    assert ReachAvoiding(g, start, v, n, {});
    ContextComplete(g, start, depth, {}, variant, v, n);
  }

  /** A new seed with text is returned at depth 0 whenever the bound is not negative. */
  lemma ContextSeed(g: Graph, start: string, depth: int, visited: set<string>, variant: Variant)
    requires Valid(g) && depth >= 0 && start in g.attrs && start !in visited && !IsBlank(TextOf(g.attrs[start]))
    ensures NodeAt(g, start, 0) in GraphContext(g, start, depth, visited, variant).0
  {
    WalkMarks(g, start, depth, visited, variant);
    WalkedInContext(g, start, depth, visited, variant, NodeAt(g, start, 0));
  }

  /** Every node the walk added to the shared set and whose text is not blank is returned. */
  lemma ContextEmitsVisited(g: Graph, start: string, depth: int, visited: set<string>, variant: Variant)
    requires Valid(g)
    ensures var (ctx, after) := GraphContext(g, start, depth, visited, variant);
      forall x :: x in after && x !in visited && x in g.attrs && !IsBlank(TextOf(g.attrs[x])) ==>
        exists k :: NodeAt(g, x, k) in ctx
  {
    var m := Marks(g, depth, variant, Bfs([(start, 0)], visited, []), map[], 0).0;
    WalkMarks(g, start, depth, visited, variant);
    var (ctx, after) := GraphContext(g, start, depth, visited, variant);
    forall x | x in after && x !in visited && x in g.attrs && !IsBlank(TextOf(g.attrs[x])) ensures exists k :: NodeAt(g, x, k) in ctx {
      WalkedInContext(g, start, depth, visited, variant, NodeAt(g, x, m[x]));
    }
  }

  lemma ReachOne(g: Graph, s: string, v: string, avoid: set<string>)
    requires Linked(g, s, v) && s !in avoid && v !in avoid
    ensures ReachAvoiding(g, s, v, 1, avoid)
  {
    var p := [s, v];
    assert LinkedPath(g, p);
  }

  /** With a bound of at least 1, every new neighbour with text of a new seed is returned
      at depth 1. */
  lemma ContextNeighbours(g: Graph, start: string, depth: int, visited: set<string>, variant: Variant, v: string)
    requires Valid(g) && depth >= 1 && start !in visited && v !in visited && Linked(g, start, v)
    requires v != start && v in g.attrs && !IsBlank(TextOf(g.attrs[v]))
    ensures NodeAt(g, v, 1) in GraphContext(g, start, depth, visited, variant).0
  {
    ReachOne(g, start, v, visited);
    ContextComplete(g, start, depth, visited, variant, v, 1);
    var k: nat :| k <= 1 && NodeAt(g, v, k) in GraphContext(g, start, depth, visited, variant).0;
    if k == 0 {
      ContextDepthZeroSeed(g, start, depth, visited, variant, NodeAt(g, v, k));
      assert false;
    }
    assert k == 1;
  }
}
