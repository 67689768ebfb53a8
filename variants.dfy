/** The server's walk skips a neighbour entry that is already queued; the service's walk
    enqueues it again. The two walks visit and emit the same nodes: a repeated entry
    reaches the front of the queue only after its first copy was handled, and then its
    id is visited (or its depth is too deep), so it is dropped without effect.

    The proof compares the queues through their "live" entries: those the walk would
    still expand, in order, each id once. */
module Variants {
  import opened DiGraphs
  import opened Context

  /** An entry the walk drops on sight: its id is visited or it is too deep. */
  ghost predicate Dead(depth: int, e: Entry, visited: set<string>) {
    e.0 in visited || e.1 > depth
  }

  /** The entries of `q` that would be expanded, in order, if nothing were enqueued. */
  ghost function Live(depth: int, q: seq<Entry>, visited: set<string>): seq<Entry>
    decreases |q|
  {
    if q == [] then []
    else if Dead(depth, q[0], visited) then Live(depth, q[1..], visited)
    else [q[0]] + Live(depth, q[1..], visited + {q[0].0})
  }

  /** The visited set after the live entries of `q` are marked. */
  ghost function Marks(depth: int, q: seq<Entry>, visited: set<string>): set<string>
    decreases |q|
  {
    if q == [] then visited
    else if Dead(depth, q[0], visited) then Marks(depth, q[1..], visited)
    else Marks(depth, q[1..], visited + {q[0].0})
  }

  /** `[e for e in s if e not in pending]`. */
  function Without(s: seq<Entry>, pending: seq<Entry>): (r: seq<Entry>)
    ensures forall e :: e in r <==> e in s && e !in pending
  {
    if s == [] then [] else (if s[0] in pending then [] else [s[0]]) + Without(s[1..], pending)
  }

  // ---------------------------------------------------------------------------
  // Live entries.

  /** The ids marked are the ids of the live entries. */
  lemma {:induction false} MarksAreLiveIds(depth: int, q: seq<Entry>, visited: set<string>)
    ensures Marks(depth, q, visited) == visited + set e | e in Live(depth, q, visited) :: e.0
    decreases |q|
  {
    if q != [] {
      if Dead(depth, q[0], visited) {
        MarksAreLiveIds(depth, q[1..], visited);
      } else {
        MarksAreLiveIds(depth, q[1..], visited + {q[0].0});
        var rest := Live(depth, q[1..], visited + {q[0].0});
        assert Live(depth, q, visited) == [q[0]] + rest;
        assert (set e | e in [q[0]] + rest :: e.0) == {q[0].0} + set e | e in rest :: e.0;
      }
    }
  }

  lemma DeadStaysDead(depth: int, e: Entry, visited: set<string>, more: set<string>)
    requires Dead(depth, e, visited) && visited <= more
    ensures Dead(depth, e, more)
  {
  }

  /** Marking only adds ids. */
  lemma {:induction false} MarksGrow(depth: int, q: seq<Entry>, visited: set<string>)
    ensures visited <= Marks(depth, q, visited)
    decreases |q|
  {
    if q != [] {
      if Dead(depth, q[0], visited) {
        MarksGrow(depth, q[1..], visited);
      } else {
        MarksGrow(depth, q[1..], visited + {q[0].0});
      }
    }
  }

  /** Once the live entries of `q` are marked, every entry of `q` is dead. */
  lemma {:induction false} MarksKill(depth: int, q: seq<Entry>, visited: set<string>)
    ensures forall e :: e in q ==> Dead(depth, e, Marks(depth, q, visited))
    decreases |q|
  {
    if q != [] {
      var next := if Dead(depth, q[0], visited) then visited else visited + {q[0].0};
      assert Marks(depth, q, visited) == Marks(depth, q[1..], next);
      MarksKill(depth, q[1..], next);
      MarksGrow(depth, q[1..], next);
      assert Dead(depth, q[0], next);
      DeadStaysDead(depth, q[0], next, Marks(depth, q, visited));
      forall e | e in q ensures Dead(depth, e, Marks(depth, q, visited)) {
        if e != q[0] {
          assert e in q[1..];
        }
      }
    }
  }

  /** The live entries of a concatenation. */
  lemma {:induction false} LiveAppend(depth: int, a: seq<Entry>, b: seq<Entry>, visited: set<string>)
    ensures Live(depth, a + b, visited) == Live(depth, a, visited) + Live(depth, b, Marks(depth, a, visited))
    decreases |a|
  {
    if a == [] {
      assert a + b == b;
    } else {
      assert (a + b)[0] == a[0] && (a + b)[1..] == a[1..] + b;
      if Dead(depth, a[0], visited) {
        LiveAppend(depth, a[1..], b, visited);
      } else {
        LiveAppend(depth, a[1..], b, visited + {a[0].0});
      }
    }
  }

  /** Dropping entries that are dead anyway leaves the live entries as they are. */
  lemma {:induction false} LiveWithoutDead(depth: int, s: seq<Entry>, pending: seq<Entry>, visited: set<string>)
    requires forall e :: e in pending ==> Dead(depth, e, visited)
    ensures Live(depth, Without(s, pending), visited) == Live(depth, s, visited)
    decreases |s|
  {
    if s != [] {
      var rest := Without(s[1..], pending);
      if s[0] in pending {
        assert Without(s, pending) == rest;
        LiveWithoutDead(depth, s[1..], pending, visited);
      } else {
        assert Without(s, pending) == [s[0]] + rest;
        if Dead(depth, s[0], visited) {
          LiveWithoutDead(depth, s[1..], pending, visited);
        } else {
          forall e | e in pending ensures Dead(depth, e, visited + {s[0].0}) {
            DeadStaysDead(depth, e, visited, visited + {s[0].0});
          }
          LiveWithoutDead(depth, s[1..], pending, visited + {s[0].0});
        }
      }
    }
  }

  // ---------------------------------------------------------------------------
  // The two ways of enqueueing neighbours.

  lemma {:induction false} WithoutAppend(a: seq<Entry>, b: seq<Entry>, pending: seq<Entry>)
    ensures Without(a + b, pending) == Without(a, pending) + Without(b, pending)
    decreases |a|
  {
    if a == [] {
      assert a + b == b;
    } else {
      assert (a + b)[0] == a[0] && (a + b)[1..] == a[1..] + b;
      WithoutAppend(a[1..], b, pending);
    }
  }

  /** The server's filter is the service's list without the queued entries. */
  lemma {:induction false} FreshWithout(pending: seq<Entry>, ids: seq<string>, next: nat)
    ensures Fresh(Server, pending, ids, next) == Without(Fresh(Service, pending, ids, next), pending)
    decreases |ids|
  {
    if ids != [] {
      FreshWithout(pending, ids[1..], next);
      var head: seq<Entry> := [(ids[0], next)];
      assert Fresh(Service, pending, ids, next) == head + Fresh(Service, pending, ids[1..], next);
      WithoutAppend(head, Fresh(Service, pending, ids[1..], next), pending);
    }
  }

  /** The service's list does not depend on the queue. */
  lemma {:induction false} FreshIgnoresQueue(pending: seq<Entry>, ids: seq<string>, next: nat)
    ensures Fresh(Service, pending, ids, next) == Fresh(Service, [], ids, next)
    decreases |ids|
  {
    if ids != [] {
      FreshIgnoresQueue(pending, ids[1..], next);
    }
  }

  lemma {:induction false} InGraphAppend(g: Graph, a: seq<Entry>, b: seq<Entry>)
    ensures InGraph(g, a + b) == InGraph(g, a) + InGraph(g, b)
    decreases |a|
  {
    if a == [] {
      assert a + b == b;
    } else {
      assert (a + b)[0] == a[0] && (a + b)[1..] == a[1..] + b;
      InGraphAppend(g, a[1..], b);
    }
  }

  lemma {:induction false} InGraphWithout(g: Graph, s: seq<Entry>, pending: seq<Entry>)
    ensures InGraph(g, Without(s, pending)) == Without(InGraph(g, s), pending)
    decreases |s|
  {
    if s != [] {
      InGraphWithout(g, s[1..], pending);
      var head := if s[0] in pending then [] else [s[0]];
      assert Without(s, pending) == head + Without(s[1..], pending);
      InGraphAppend(g, head, Without(s[1..], pending));
      var kept := if s[0].0 in g.attrs then [s[0]] else [];
      assert InGraph(g, s) == kept + InGraph(g, s[1..]);
      WithoutAppend(kept, InGraph(g, s[1..]), pending);
    }
  }

  /** The server enqueues what the service enqueues, less the entries already queued. */
  lemma NeighboursWithout(g: Graph, pending: seq<Entry>, id: string, d: nat)
    ensures Neighbours(g, Server, pending, id, d) == Without(Neighbours(g, Service, [], id, d), pending)
  {
    var r, c, p := RefTargets(g, id), Children(g, id), Parents(g, id);
    FreshWithout(pending, r, d + 1);
    FreshWithout(pending, c, d + 1);
    FreshWithout(pending, p, d + 1);
    FreshIgnoresQueue(pending, r, d + 1);
    FreshIgnoresQueue(pending, c, d + 1);
    FreshIgnoresQueue(pending, p, d + 1);
    var fr, fc, fp := Fresh(Service, [], r, d + 1), Fresh(Service, [], c, d + 1), Fresh(Service, [], p, d + 1);
    WithoutAppend(fr, fc, pending);
    WithoutAppend(fr + fc, fp, pending);
    InGraphWithout(g, fr + fc + fp, pending);
  }

  /** Whatever the variant, the neighbours add the same live entries once the queued
      entries are dead. */
  lemma NeighboursLive(g: Graph, depth: int, variant: Variant, pending: seq<Entry>, id: string, d: nat, visited: set<string>)
    requires forall e :: e in pending ==> Dead(depth, e, visited)
    ensures Live(depth, Neighbours(g, variant, pending, id, d), visited) == Live(depth, Neighbours(g, Service, [], id, d), visited)
  {
    if variant == Server {
      NeighboursWithout(g, pending, id, d);
      LiveWithoutDead(depth, Neighbours(g, Service, [], id, d), pending, visited);
    } else {
      var r, c, p := RefTargets(g, id), Children(g, id), Parents(g, id);
      FreshIgnoresQueue(pending, r, d + 1);
      FreshIgnoresQueue(pending, c, d + 1);
      FreshIgnoresQueue(pending, p, d + 1);
    }
  }

  // ---------------------------------------------------------------------------
  // The walks.

  /** Two walks whose queues hold the same live entries end with the same visited set
      and the same emitted records, whichever variant each one runs. */
  lemma {:induction false} ExploreAlike(g: Graph, depth: int, v1: Variant, v2: Variant,
                                         q1: seq<Entry>, q2: seq<Entry>, visited: set<string>, found: seq<ContextNode>)
    requires Live(depth, q1, visited) == Live(depth, q2, visited)
    ensures Explore(g, depth, v1, Bfs(q1, visited, found)).visited == Explore(g, depth, v2, Bfs(q2, visited, found)).visited
    ensures Explore(g, depth, v1, Bfs(q1, visited, found)).found == Explore(g, depth, v2, Bfs(q2, visited, found)).found
    decreases |g.attrs.Keys - visited|, |q1| + |q2|, 2
  {
    var s1, s2 := Bfs(q1, visited, found), Bfs(q2, visited, found);
    if q1 != [] && Dead(depth, q1[0], visited) {
      assert Step(g, depth, v1, s1) == Bfs(q1[1..], visited, found);
      ExploreAlike(g, depth, v1, v2, q1[1..], q2, visited, found);
    } else if q2 != [] && Dead(depth, q2[0], visited) {
      assert Step(g, depth, v2, s2) == Bfs(q2[1..], visited, found);
      ExploreAlike(g, depth, v1, v2, q1, q2[1..], visited, found);
    } else if q1 == [] || q2 == [] {
      // One queue is empty, so the other has no live entry and, its front being live,
      // is empty too.
      if q1 != [] || q2 != [] {
        assert false;
      }
    } else {
      VisitAlike(g, depth, v1, v2, q1, q2, visited, found);
    }
  }

  /** The case of `ExploreAlike` where both queues start with a live entry: it is the
      same entry, and the rest of the queues hold the same live entries once it is
      marked. */
  lemma {:induction false} VisitAlike(g: Graph, depth: int, v1: Variant, v2: Variant,
                                       q1: seq<Entry>, q2: seq<Entry>, visited: set<string>, found: seq<ContextNode>)
    requires q1 != [] && q2 != [] && !Dead(depth, q1[0], visited) && !Dead(depth, q2[0], visited)
    requires Live(depth, q1, visited) == Live(depth, q2, visited)
    ensures Explore(g, depth, v1, Bfs(q1, visited, found)).visited == Explore(g, depth, v2, Bfs(q2, visited, found)).visited
    ensures Explore(g, depth, v1, Bfs(q1, visited, found)).found == Explore(g, depth, v2, Bfs(q2, visited, found)).found
    decreases |g.attrs.Keys - visited|, |q1| + |q2|, 1
  {
    var e1, e2 := q1[0], q2[0];
    var l1, l2 := Live(depth, q1[1..], visited + {e1.0}), Live(depth, q2[1..], visited + {e2.0});
    assert Live(depth, q1, visited) == [e1] + l1;
    assert Live(depth, q2, visited) == [e2] + l2;
    assert e1 == ([e1] + l1)[0] == ([e2] + l2)[0] == e2;
    assert l1 == ([e1] + l1)[1..] == ([e2] + l2)[1..] == l2;
    if q1[0].0 in g.attrs {
      ExpandAlike(g, depth, v1, v2, q1, q2, visited, found);
    } else {
      MissingAlike(g, depth, v1, v2, q1, q2, visited, found);
    }
  }

  /** The front entry names no node: both walks only mark it. */
  lemma {:induction false} MissingAlike(g: Graph, depth: int, v1: Variant, v2: Variant,
                                       q1: seq<Entry>, q2: seq<Entry>, visited: set<string>, found: seq<ContextNode>)
    requires q1 != [] && q2 != [] && q1[0] == q2[0] && !Dead(depth, q1[0], visited)
    requires Live(depth, q1[1..], visited + {q1[0].0}) == Live(depth, q2[1..], visited + {q1[0].0})
    requires q1[0].0 !in g.attrs
    ensures Explore(g, depth, v1, Bfs(q1, visited, found)).visited == Explore(g, depth, v2, Bfs(q2, visited, found)).visited
    ensures Explore(g, depth, v1, Bfs(q1, visited, found)).found == Explore(g, depth, v2, Bfs(q2, visited, found)).found
    decreases |g.attrs.Keys - visited|, |q1| + |q2|, 0
  {
    var marked := visited + {q1[0].0};
    SkipMissing(g, depth, v1, Bfs(q1, visited, found));
    SkipMissing(g, depth, v2, Bfs(q2, visited, found));
    ExploreAlike(g, depth, v1, v2, q1[1..], q2[1..], marked, found);
  }

  /** A walk whose front entry is live and names no node only marks it. */
  lemma SkipMissing(g: Graph, depth: int, v: Variant, st: Bfs)
    requires st.queue != [] && !Dead(depth, st.queue[0], st.visited) && st.queue[0].0 !in g.attrs
    ensures g.attrs.Keys - (st.visited + {st.queue[0].0}) == g.attrs.Keys - st.visited
    ensures Explore(g, depth, v, st) == Explore(g, depth, v, Bfs(st.queue[1..], st.visited + {st.queue[0].0}, st.found))
  {
    assert Step(g, depth, v, st) == Bfs(st.queue[1..], st.visited + {st.queue[0].0}, st.found);
  }

  /** The front entry names a node: both walks emit its record and enqueue its
      neighbours, which leaves the same live entries in both queues. */
  lemma {:induction false} ExpandAlike(g: Graph, depth: int, v1: Variant, v2: Variant,
                                       q1: seq<Entry>, q2: seq<Entry>, visited: set<string>, found: seq<ContextNode>)
    requires q1 != [] && q2 != [] && q1[0] == q2[0] && !Dead(depth, q1[0], visited)
    requires Live(depth, q1[1..], visited + {q1[0].0}) == Live(depth, q2[1..], visited + {q1[0].0})
    requires q1[0].0 in g.attrs
    ensures Explore(g, depth, v1, Bfs(q1, visited, found)).visited == Explore(g, depth, v2, Bfs(q2, visited, found)).visited
    ensures Explore(g, depth, v1, Bfs(q1, visited, found)).found == Explore(g, depth, v2, Bfs(q2, visited, found)).found
    decreases |g.attrs.Keys - visited|, |q1| + |q2|, 0
  {
    var id, d := q1[0].0, q1[0].1;
    var marked := visited + {id};
    var r1, r2 := q1[1..], q2[1..];
    VisitOne(g.attrs.Keys, visited, id);
    var more := found + Emitted(g, id, d);
    var n1, n2 := Neighbours(g, v1, r1, id, d), Neighbours(g, v2, r2, id, d);
    assert Step(g, depth, v1, Bfs(q1, visited, found)) == Bfs(r1 + n1, marked, more);
    assert Step(g, depth, v2, Bfs(q2, visited, found)) == Bfs(r2 + n2, marked, more);
    MarksAreLiveIds(depth, r1, marked);
    MarksAreLiveIds(depth, r2, marked);
    var w := Marks(depth, r1, marked);
    assert Marks(depth, r2, marked) == w;
    MarksKill(depth, r1, marked);
    MarksKill(depth, r2, marked);
    NeighboursLive(g, depth, v1, r1, id, d, w);
    NeighboursLive(g, depth, v2, r2, id, d, w);
    LiveAppend(depth, r1, n1, marked);
    LiveAppend(depth, r2, n2, marked);
    ExploreAlike(g, depth, v1, v2, r1 + n1, r2 + n2, marked, more);
  }

  /** `get_graph_context` returns the same records and leaves the same visited set in
      the server and in the service. */
  lemma VariantsAlike(g: Graph, start: string, depth: int, visited: set<string>)
    ensures GraphContext(g, start, depth, visited, Server) == GraphContext(g, start, depth, visited, Service)
  {
    ExploreAlike(g, depth, Server, Service, [(start, 0)], [(start, 0)], visited, []);
  }
}
