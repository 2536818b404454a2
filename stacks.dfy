/**
 * The stack topology engine of landoui/stacks.py: the adjacency index built
 * from a set of revisions and their child->parent edges, and the
 * deterministic topological sort (Kahn's algorithm, smallest key first).
 */
module Stacks {
  import opened Wrappers

  /** A dependency: `child` stacks on top of (lands after) `parent`. */
  datatype Edge<N> = Edge(child: N, parent: N)

  /** One entry of the adjacency index. */
  datatype GraphNode<N> = GraphNode(id: N, children: set<N>, parents: set<N>)

  type Graph<N> = map<N, GraphNode<N>>

  /** Python's `ValueError('Provided graph has a cycle.')`. */
  datatype SortError = CycleError

  function Children<N(==)>(edges: set<Edge<N>>, n: N): set<N> {
    set e | e in edges && e.parent == n :: e.child
  }

  function Parents<N(==)>(edges: set<Edge<N>>, n: N): set<N> {
    set e | e in edges && e.child == n :: e.parent
  }

  function Elems<N>(s: seq<N>): set<N> {
    set x | x in s
  }

  /** Callers guarantee that both ends of every edge are nodes of the stack. */
  predicate EdgesWithin<N(==)>(nodes: set<N>, edges: set<Edge<N>>) {
    forall e :: e in edges ==> e.child in nodes && e.parent in nodes
  }

  /** `g` is the adjacency index of (nodes, edges): one entry per node. */
  ghost predicate IsIndex<N>(g: Graph<N>, nodes: set<N>, edges: set<Edge<N>>) {
    && g.Keys == nodes
    && forall n :: n in g ==>
         && g[n].id == n
         && g[n].children == Children(edges, n)
         && g[n].parents == Parents(edges, n)
  }

  ghost predicate Distinct<N>(s: seq<N>) {
    forall i, j :: 0 <= i < j < |s| ==> s[i] != s[j]
  }

  /** Every node appears exactly once. */
  ghost predicate IsPermutation<N>(order: seq<N>, nodes: set<N>) {
    Distinct(order) && Elems(order) == nodes
  }

  /** The nodes not yet emitted whose parents have all been emitted. */
  function Ready<N(==)>(nodes: set<N>, edges: set<Edge<N>>, done: seq<N>): set<N> {
    set n | n in nodes && n !in done && Parents(edges, n) <= Elems(done)
  }

  /** A permutation of the nodes that lists every parent before its children. */
  ghost predicate IsTopological<N>(order: seq<N>, nodes: set<N>, edges: set<Edge<N>>) {
    && IsPermutation(order, nodes)
    && forall i :: 0 <= i < |order| ==> ParentsBefore(edges, order, i)
  }

  /** Every parent of `order[i]` occurs before position `i`. */
  ghost predicate ParentsBefore<N>(edges: set<Edge<N>>, order: seq<N>, i: int) {
    0 <= i < |order| && Parents(edges, order[i]) <= Elems(order[..i])
  }

  /**
   * The orders Kahn's algorithm with minimum-key selection can produce: at
   * every step the emitted node is ready and no ready node has a smaller key.
   */
  ghost predicate IsGreedyTopological<N>(order: seq<N>, nodes: set<N>, edges: set<Edge<N>>, key: N -> int) {
    IsPermutation(order, nodes) && GreedyPrefix(order, nodes, edges, key)
  }

  /** Every emitted node was ready when emitted and had the smallest key among the ready ones. */
  ghost predicate GreedyPrefix<N>(order: seq<N>, nodes: set<N>, edges: set<Edge<N>>, key: N -> int) {
    forall i :: 0 <= i < |order| ==> GreedyAt(order, i, nodes, edges, key)
  }

  /** `order[i]` was ready after `order[..i]` and no ready node had a smaller key. */
  ghost predicate GreedyAt<N>(order: seq<N>, i: int, nodes: set<N>, edges: set<Edge<N>>, key: N -> int) {
    && 0 <= i < |order|
    && order[i] in Ready(nodes, edges, order[..i])
    && forall n :: n in Ready(nodes, edges, order[..i]) ==> key(order[i]) <= key(n)
  }

  ghost predicate Sortable<N(!new)>(nodes: set<N>, edges: set<Edge<N>>) {
    exists order :: IsTopological(order, nodes, edges)
  }

  /** `path[k]` is a child of `path[k + 1]`, and the last is a child of the first. */
  ghost predicate IsCycle<N>(edges: set<Edge<N>>, path: seq<N>) {
    && |path| >= 1
    && (forall k {:trigger path[k]} :: 0 <= k < |path| - 1 ==> Edge(path[k], path[k + 1]) in edges)
    && Edge(path[|path| - 1], path[0]) in edges
  }

  ghost predicate HasCycle<N(!new)>(edges: set<Edge<N>>) {
    exists path :: IsCycle(edges, path)
  }

  /** `graph`: one entry per node, isolated nodes included; each edge recorded at both ends. */
  method BuildGraph<N(==)>(nodes: set<N>, edges: set<Edge<N>>) returns (g: Graph<N>)
    requires EdgesWithin(nodes, edges)
    ensures IsIndex(g, nodes, edges)
  {
    g := map n | n in nodes :: GraphNode(n, {}, {});
    var todo := edges;
    while todo != {}
      invariant todo <= edges && g.Keys == nodes
      invariant IsIndex(g, nodes, edges - todo)
      decreases |todo|
    {
      hide IsIndex;
      var e :| e in todo;
      ghost var done, g0 := edges - todo, g;
      var p := g[e.parent];
      g := g[e.parent := p.(children := p.children + {e.child})];
      var c := g[e.child];
      g := g[e.child := c.(parents := c.parents + {e.parent})];
      IndexAddEdge(g0, g, nodes, done, e);
      todo := todo - {e};
      assert edges - todo == done + {e};
    }
  }

  /**
   * `sort_stack_topological`: Kahn's algorithm. A node is emitted once all of
   * its parents are; among the ready nodes the one with the smallest key goes
   * first. A cycle yields `CycleError` and no order at all.
   */
  method SortStackTopological<N(==,!new)>(nodes: set<N>, edges: set<Edge<N>>, key: N -> int)
    returns (r: Result<seq<N>, SortError>)
    requires EdgesWithin(nodes, edges)
    ensures r.Ok? ==> IsGreedyTopological(r.value, nodes, edges, key)
    ensures r.Err? <==> HasCycle(edges)
  {
    var g := BuildGraph(nodes, edges);
    var sources := set n | n in g && g[n].parents == {};
    var order := [];
    InitialState(nodes, edges, key, g, sources);
    while sources != {}
      invariant SortState(nodes, edges, key, g, sources, order)
      decreases |nodes - Elems(order)|
    {
      hide SortState, UnlinkState, Children;
      MinExists(sources, key);
      var node :| node in sources && forall s :: s in sources ==> key(node) <= key(s);
      SourcePending(nodes, edges, key, g, sources, order, node);
      ghost var order0, g0, sources0 := order, g, sources;
      sources := sources - {node};
      order := order + [node];
      var children := g[node].children;
      g := g - {node};
      UnlinkEntry(nodes, edges, key, g0, sources0, order0, node);
      g, sources := UnlinkChildren(nodes, edges, key, g, sources, order0, node, children);
      UnlinkDone(nodes, edges, key, g, sources, order0, node);
      assert nodes - Elems(order) == (nodes - Elems(order0)) - {node};
    }
    SortFinished(nodes, edges, key, g, order);
    if g != map[] {
      return Err(CycleError);
    }
    r := Ok(order);
  }

  /**
   * The inner loop of the sort: drop the emitted `node` from the parents of
   * each of its children; a child left without parents becomes a source.
   */
  method UnlinkChildren<N>(ghost nodes: set<N>, ghost edges: set<Edge<N>>, ghost key: N -> int,
                           g0: Graph<N>, sources0: set<N>, ghost order0: seq<N>, node: N, children: set<N>)
    returns (g: Graph<N>, sources: set<N>)
    requires UnlinkState(nodes, edges, key, g0, sources0, order0, node, children)
    ensures UnlinkState(nodes, edges, key, g, sources, order0, node, {})
  {
    g, sources := g0, sources0;
    var todo := children;
    while todo != {}
      invariant UnlinkState(nodes, edges, key, g, sources, order0, node, todo)
      decreases |todo|
    {
      var child :| child in todo;
      ghost var g1, sources1 := g, sources;
      var c := g[child];
      g := g[child := c.(parents := c.parents - {node})];
      if g[child].parents == {} {
        sources := sources + {child};
      }
      UnlinkStep(nodes, edges, key, g1, sources1, order0, node, todo, child);
      todo := todo - {child};
    }
  }

  /** The state the sort keeps between two emissions. */
  ghost predicate SortState<N>(nodes: set<N>, edges: set<Edge<N>>, key: N -> int, g: Graph<N>, sources: set<N>, order: seq<N>) {
    && EdgesWithin(nodes, edges)
    && Distinct(order)
    && Elems(order) <= nodes
    && g.Keys == nodes - Elems(order)
    && (forall n :: n in g ==>
          && g[n].id == n
          && g[n].children == Children(edges, n)
          && g[n].parents == Parents(edges, n) - Elems(order))
    && sources == Ready(nodes, edges, order)
    && GreedyPrefix(order, nodes, edges, key)
  }

  /**
   * The state while the links from the just emitted `node` to the children
   * still in `todo` are being removed.
   */
  ghost predicate UnlinkState<N>(nodes: set<N>, edges: set<Edge<N>>, key: N -> int, g: Graph<N>, sources: set<N>,
                                 order0: seq<N>, node: N, todo: set<N>) {
    var order := order0 + [node];
    && EdgesWithin(nodes, edges)
    && Distinct(order)
    && Elems(order) == Elems(order0) + {node}
    && Elems(order) <= nodes
    && GreedyPrefix(order, nodes, edges, key)
    && todo <= Children(edges, node)
    && g.Keys == nodes - Elems(order)
    && todo <= g.Keys
    && (forall n :: n in g ==>
          && g[n].id == n
          && g[n].children == Children(edges, n)
          && g[n].parents == Parents(edges, n) - Elems(if n in todo then order0 else order))
    && sources == Ready(nodes, edges, order) - todo
  }

  /** Once no node is ready: either all were emitted, or the rest lie on a cycle. */
  lemma SortFinished<N(!new)>(nodes: set<N>, edges: set<Edge<N>>, key: N -> int, g: Graph<N>, order: seq<N>)
    requires SortState(nodes, edges, key, g, {}, order)
    ensures g != map[] ==> HasCycle(edges)
    ensures g == map[] ==> IsGreedyTopological(order, nodes, edges, key) && !HasCycle(edges)
  {
    if g != map[] {
      assert g.Keys != {};
      assert nodes - g.Keys == Elems(order);
      forall n | n in g.Keys
        ensures n in nodes && !(Parents(edges, n) <= nodes - g.Keys)
      {
        assert n !in Ready(nodes, edges, order);
      }
      StuckSetHasCycle(nodes, edges, g.Keys);
    } else {
      assert g.Keys == {};
      forall x | x in nodes ensures x in Elems(order) {
        assert x !in g.Keys;
      }
      assert Elems(order) == nodes;
      forall i | 0 <= i < |order|
        ensures ParentsBefore(edges, order, i)
      {
        assert GreedyAt(order, i, nodes, edges, key);
      }
      TopologicalIsAcyclic(nodes, edges, order);
    }
  }

  lemma InitialState<N>(nodes: set<N>, edges: set<Edge<N>>, key: N -> int, g: Graph<N>, sources: set<N>)
    requires EdgesWithin(nodes, edges) && IsIndex(g, nodes, edges)
    requires sources == set n | n in g && g[n].parents == {}
    ensures SortState(nodes, edges, key, g, sources, [])
  {
    assert Elems<N>([]) == {};
  }

  /** A ready node is still in the graph, with all its children, and not yet emitted. */
  lemma SourcePending<N>(nodes: set<N>, edges: set<Edge<N>>, key: N -> int, g: Graph<N>, sources: set<N>, order: seq<N>, node: N)
    requires SortState(nodes, edges, key, g, sources, order) && node in sources
    ensures node in g && g[node].children == Children(edges, node)
    ensures node in nodes - Elems(order)
  {
  }

  lemma UnlinkEntry<N>(nodes: set<N>, edges: set<Edge<N>>, key: N -> int, g: Graph<N>, sources: set<N>, order: seq<N>, node: N)
    requires SortState(nodes, edges, key, g, sources, order)
    requires node in sources && forall s :: s in sources ==> key(node) <= key(s)
    ensures UnlinkState(nodes, edges, key, g - {node}, sources - {node}, order, node, Children(edges, node))
  {
    EmitStep(nodes, edges, key, order, node);
    var o := order + [node];
    var g' := g - {node};
    forall n | n in g' && n !in Children(edges, node)
      ensures Parents(edges, n) - Elems(order) == Parents(edges, n) - Elems(o)
    {
      assert node !in Parents(edges, n);
    }
  }

  lemma UnlinkDone<N>(nodes: set<N>, edges: set<Edge<N>>, key: N -> int, g: Graph<N>, sources: set<N>, order0: seq<N>, node: N)
    requires UnlinkState(nodes, edges, key, g, sources, order0, node, {})
    ensures SortState(nodes, edges, key, g, sources, order0 + [node])
  {
  }

  lemma UnlinkStep<N>(nodes: set<N>, edges: set<Edge<N>>, key: N -> int, g: Graph<N>, sources: set<N>,
                      order0: seq<N>, node: N, todo: set<N>, child: N)
    requires UnlinkState(nodes, edges, key, g, sources, order0, node, todo)
    requires child in todo
    ensures var g' := g[child := g[child].(parents := g[child].parents - {node})];
            UnlinkState(nodes, edges, key, g', if g'[child].parents == {} then sources + {child} else sources,
                        order0, node, todo - {child})
  {
    var order := order0 + [node];
    var g' := g[child := g[child].(parents := g[child].parents - {node})];
    assert g'[child].parents == Parents(edges, child) - Elems(order);
    assert child in Ready(nodes, edges, order) <==> g'[child].parents == {};
  }

  lemma MinExists<N>(s: set<N>, key: N -> int)
    requires s != {}
    ensures exists m :: m in s && forall x :: x in s ==> key(m) <= key(x)
  {
    var y :| y in s;
    if s != {y} {
      MinExists(s - {y}, key);
      var m :| m in s - {y} && forall x :: x in s - {y} ==> key(m) <= key(x);
      if key(y) < key(m) {
        assert forall x :: x in s ==> key(y) <= key(x);
      } else {
        assert forall x :: x in s ==> key(m) <= key(x);
      }
    } else {
      assert forall x :: x in s ==> key(y) <= key(x);
    }
  }

  /**
   * Emitting a ready node with the smallest key: its children are all still
   * pending, the greedy prefix grows by one, and the nodes that become ready
   * are children of the emitted node.
   */
  lemma EmitStep<N>(nodes: set<N>, edges: set<Edge<N>>, key: N -> int, order: seq<N>, node: N)
    requires EdgesWithin(nodes, edges) && Distinct(order)
    requires GreedyPrefix(order, nodes, edges, key)
    requires node in Ready(nodes, edges, order)
    requires forall n :: n in Ready(nodes, edges, order) ==> key(node) <= key(n)
    ensures Children(edges, node) <= nodes - Elems(order + [node])
    ensures Ready(nodes, edges, order + [node]) - Children(edges, node) == Ready(nodes, edges, order) - {node}
    ensures Distinct(order + [node]) && Elems(order + [node]) == Elems(order) + {node}
    ensures GreedyPrefix(order + [node], nodes, edges, key)
  {
    var o := order + [node];
    assert Elems(o) == Elems(order) + {node};
    assert forall x :: x in order ==> Parents(edges, x) <= Elems(order) by {
      forall x | x in order ensures Parents(edges, x) <= Elems(order) {
        var i :| 0 <= i < |order| && order[i] == x;
        assert GreedyAt(order, i, nodes, edges, key);
        assert Elems(order[..i]) <= Elems(order);
      }
    }
    assert node !in Parents(edges, node);
    forall c | c in Children(edges, node)
      ensures c in nodes && c !in o
    {
      var e :| e in edges && e.parent == node && e.child == c;
      assert node in Parents(edges, c);
    }
    forall n | n in Ready(nodes, edges, o) - Children(edges, node)
      ensures n in Ready(nodes, edges, order) - {node}
    {
      assert node !in Parents(edges, n);
    }
    forall i | 0 <= i < |o|
      ensures GreedyAt(o, i, nodes, edges, key)
    {
      if i < |order| {
        assert o[..i] == order[..i];
        assert GreedyAt(order, i, nodes, edges, key);
      } else {
        assert o[..i] == order;
      }
    }
  }

  /** A non-empty set of nodes each of which has a parent in the set. */
  ghost predicate IsStuck<N>(edges: set<Edge<N>>, stuck: set<N>) {
    stuck != {} && forall n :: n in stuck ==> Parents(edges, n) * stuck != {}
  }

  /** When no node is ready but some are left, the leftovers lie on a cycle. */
  lemma StuckSetHasCycle<N(!new)>(nodes: set<N>, edges: set<Edge<N>>, pending: set<N>)
    requires EdgesWithin(nodes, edges) && pending != {}
    requires forall n :: n in pending ==> n in nodes && !(Parents(edges, n) <= nodes - pending)
    ensures HasCycle(edges)
  {
    assert IsStuck(edges, pending) by {
      forall n | n in pending
        ensures Parents(edges, n) * pending != {}
      {
        var p :| p in Parents(edges, n) && p !in nodes - pending;
        assert p in nodes;
        assert p in Parents(edges, n) * pending;
      }
    }
    WalkFindsCycle(edges, pending);
  }

  /** Following parents inside a stuck set must revisit a node: that is a cycle. */
  lemma {:induction false} WalkFindsCycle<N(!new)>(edges: set<Edge<N>>, stuck: set<N>)
    requires IsStuck(edges, stuck)
    ensures HasCycle(edges)
  {
    var x :| x in stuck;
    var walk := [x];
    while |walk| <= |stuck|
      invariant 1 <= |walk| <= |stuck| + 1
      invariant Elems(walk) <= stuck
      invariant forall k :: 0 <= k < |walk| - 1 ==> Edge(walk[k], walk[k + 1]) in edges
    {
      var last := walk[|walk| - 1];
      assert last in Elems(walk);
      var p :| p in Parents(edges, last) * stuck;
      var e :| e in edges && e.child == last && e.parent == p;
      walk := walk + [p];
    }
    var i, j := Pigeonhole(walk, stuck);
    var path := walk[i..j];
    forall k | 0 <= k < |path| - 1
      ensures Edge(path[k], path[k + 1]) in edges
    {
      assert path[k] == walk[i + k] && path[k + 1] == walk[i + k + 1];
    }
    assert Edge(walk[j - 1], walk[j]) in edges;
    assert path[|path| - 1] == walk[j - 1] && walk[j] == path[0];
    assert IsCycle(edges, path);
  }

  lemma Pigeonhole<N>(s: seq<N>, bound: set<N>) returns (i: nat, j: nat)
    requires Elems(s) <= bound && |s| > |bound|
    ensures i < j < |s| && s[i] == s[j]
  {
    if Distinct(s) {
      DistinctCard(s);
      SubsetCard(Elems(s), bound);
      assert false;
    }
    i, j :| 0 <= i < j < |s| && s[i] == s[j];
  }

  lemma {:induction false} DistinctCard<N>(s: seq<N>)
    requires Distinct(s)
    ensures |Elems(s)| == |s|
  {
    if s != [] {
      var t := s[..|s| - 1];
      DistinctCard(t);
      assert Elems(s) == Elems(t) + {s[|s| - 1]};
      assert s[|s| - 1] !in Elems(t);
    }
  }

  lemma {:induction false} SubsetCard<N>(a: set<N>, b: set<N>)
    requires a <= b
    ensures |a| <= |b|
  {
    if a != {} {
      var x :| x in a;
      SubsetCard(a - {x}, b - {x});
    }
  }

  /** The first position of `s` holding a member of `target`. */
  lemma FirstMember<N>(s: seq<N>, target: set<N>) returns (i: nat)
    requires exists x :: x in s && x in target
    ensures i < |s| && s[i] in target
    ensures forall j :: 0 <= j < i ==> s[j] !in target
  {
    i := 0;
    while s[i] !in target
      invariant i < |s|
      invariant forall j :: 0 <= j < i ==> s[j] !in target
      invariant exists j :: i <= j < |s| && s[j] in target
      decreases |s| - i
    {
      i := i + 1;
    }
  }

  /**
   * Whatever permutation of the nodes one picks, the first node of a cycle in
   * it comes before the node that the cycle names as its parent.
   */
  lemma CycleBreaksOrder<N>(nodes: set<N>, edges: set<Edge<N>>, order: seq<N>, path: seq<N>)
    requires EdgesWithin(nodes, edges) && IsCycle(edges, path) && Elems(order) == nodes
    ensures exists i :: 0 <= i < |order| && !ParentsBefore(edges, order, i)
  {
    var onCycle := Elems(path);
    assert Edge(path[|path| - 1], path[0]) in edges;
    assert path[0] in order;
    var i := FirstMember(order, onCycle);
    var k :| 0 <= k < |path| && path[k] == order[i];
    var p := if k + 1 < |path| then path[k + 1] else path[0];
    assert Edge(order[i], p) in edges;
    assert p in Parents(edges, order[i]);
    assert p in onCycle;
    assert p !in Elems(order[..i]);
    assert !ParentsBefore(edges, order, i);
  }

  /** A topological order rules out every cycle. */
  lemma TopologicalIsAcyclic<N(!new)>(nodes: set<N>, edges: set<Edge<N>>, order: seq<N>)
    requires EdgesWithin(nodes, edges) && IsTopological(order, nodes, edges)
    ensures !HasCycle(edges)
  {
    if HasCycle(edges) {
      var path :| IsCycle(edges, path);
      CycleBreaksOrder(nodes, edges, order, path);
      assert false;
    }
  }

  /** A greedy order is in particular a topological one. */
  lemma GreedyIsTopological<N>(order: seq<N>, nodes: set<N>, edges: set<Edge<N>>, key: N -> int)
    requires IsGreedyTopological(order, nodes, edges, key)
    ensures IsTopological(order, nodes, edges)
  {
    forall i | 0 <= i < |order|
      ensures ParentsBefore(edges, order, i)
    {
      assert GreedyAt(order, i, nodes, edges, key);
    }
  }

  /** In a topological order the parent of every edge comes before its child. */
  lemma TopologicalRespectsEdges<N>(order: seq<N>, nodes: set<N>, edges: set<Edge<N>>)
    requires IsTopological(order, nodes, edges)
    ensures forall i, j :: 0 <= i < |order| && 0 <= j < |order| && Edge(order[j], order[i]) in edges ==> i < j
  {
    forall i, j | 0 <= i < |order| && 0 <= j < |order| && Edge(order[j], order[i]) in edges
      ensures i < j
    {
      assert ParentsBefore(edges, order, j);
      assert order[i] in Parents(edges, order[j]);
      var k :| 0 <= k < j && order[..j][k] == order[i];
      assert order[k] == order[i];
    }
  }

  /**
   * With a key that tells the nodes apart the greedy order is unique, so the
   * sort is deterministic whatever order its sets are visited in.
   */
  lemma GreedyOrderUnique<N>(o1: seq<N>, o2: seq<N>, nodes: set<N>, edges: set<Edge<N>>, key: N -> int)
    requires IsGreedyTopological(o1, nodes, edges, key) && IsGreedyTopological(o2, nodes, edges, key)
    requires forall a, b :: a in nodes && b in nodes && key(a) == key(b) ==> a == b
    ensures o1 == o2
  {
    DistinctCard(o1);
    DistinctCard(o2);
    var i := 0;
    while i < |o1|
      invariant i <= |o1| && o1[..i] == o2[..i]
    {
      assert GreedyAt(o1, i, nodes, edges, key) && GreedyAt(o2, i, nodes, edges, key);
      assert o1[i] == o2[i];
      assert o1[..i + 1] == o1[..i] + [o1[i]] && o2[..i + 1] == o2[..i] + [o2[i]];
      i := i + 1;
    }
    assert o1 == o1[..i] && o2 == o2[..i];
  }

  /** Recording one more edge at both of its ends keeps the index exact. */
  lemma IndexAddEdge<N>(g0: Graph<N>, g: Graph<N>, nodes: set<N>, done: set<Edge<N>>, e: Edge<N>)
    requires IsIndex(g0, nodes, done) && e.child in nodes && e.parent in nodes
    requires g == (var g1 := g0[e.parent := g0[e.parent].(children := g0[e.parent].children + {e.child})];
                   g1[e.child := g1[e.child].(parents := g1[e.child].parents + {e.parent})])
    ensures IsIndex(g, nodes, done + {e})
  {
    forall n | n in g
      ensures g[n].children == Children(done + {e}, n)
      ensures g[n].parents == Parents(done + {e}, n)
    {
      assert Children(done + {e}, n) == Children(done, n) + (if e.parent == n then {e.child} else {});
      assert Parents(done + {e}, n) == Parents(done, n) + (if e.child == n then {e.parent} else {});
    }
  }
}
