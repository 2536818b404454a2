/**
 * The lane layout of landoui/stacks.py (`draw_stack_graph`): one greedy pass
 * over a topological order that gives every revision a column and records
 * which columns connect to it from above, from below and straight through.
 *
 * The lanes (`next_node`) say, column by column, which node further down the
 * order the column is reserved for (`Some(n)`), or that it is free (`None`).
 */
module StackDrawing {
  import opened Wrappers
  import opened Stacks

  /**
   * One row of the drawing: `node` sits in column `pos`; `above` are the
   * columns it connects to its children through, `below` the columns its
   * parents reach it through, `other` the columns passing by it.
   */
  datatype Row<N> = Row(node: N, pos: nat, above: seq<nat>, below: seq<nat>, other: seq<nat>)

  type Lanes<N> = seq<Option<N>>

  /** Python's `list.index`: the first position holding `x`. */
  function IndexOf<T(==)>(s: seq<T>, x: T): (i: nat)
    requires x in s
    ensures i < |s| && s[i] == x
    ensures forall j :: 0 <= j < i ==> s[j] != x
  {
    if s[0] == x then 0 else IndexOf(s[1..], x) + 1
  }

  /** `sorted(s)` for a set of columns below `n`: each column of `s` below `n`, once. */
  function Ascending(s: set<nat>, n: nat): (r: seq<nat>)
    ensures forall x :: x in r <==> x in s && x < n
  {
    if n == 0 then [] else Ascending(s, n - 1) + (if n - 1 in s then [n - 1] else [])
  }

  /** Strictly ascending, hence without repetitions. */
  predicate Increasing(r: seq<nat>) {
    forall i, j :: 0 <= i < j < |r| ==> r[i] < r[j]
  }

  /** `Ascending` lists its columns in ascending order. */
  lemma {:induction false} AscendingSorted(s: set<nat>, n: nat)
    ensures Increasing(Ascending(s, n))
  {
    if n > 0 {
      AscendingSorted(s, n - 1);
      var r0 := Ascending(s, n - 1);
      assert Increasing(r0);
      var r := Ascending(s, n);
      assert r == r0 + (if n - 1 in s then [n - 1] else []);
      forall i, j | 0 <= i < j < |r| ensures r[i] < r[j] {
        assert i < |r0| && r[i] == r0[i];
        if j < |r0| {
          assert r[j] == r0[j];
        } else {
          assert r0[i] in r0;
          assert r[j] == n - 1;
        }
      }
    }
  }

  /**
   * `empty_column_or_new` on values: the first free column, or else a new
   * free column appended after the others. The lanes grow only when no
   * column is free, and the columns already there keep their contents.
   */
  function FreeColumn<N(==)>(lanes: Lanes<N>): (r: (Lanes<N>, nat))
    ensures r.1 < |r.0| && r.0[r.1] == None
    ensures forall j :: 0 <= j < r.1 ==> r.0[j] != None
    ensures |r.0| == if None in lanes then |lanes| else |lanes| + 1
    ensures forall j :: 0 <= j < |lanes| ==> r.0[j] == lanes[j]
  {
    if None in lanes then (lanes, IndexOf(lanes, None)) else (lanes + [None], |lanes|)
  }

  /** The column the node is drawn in: the first one reserved for it, else a free or new one. */
  function Place<N(==)>(lanes: Lanes<N>, node: N): (r: (Lanes<N>, nat))
    ensures |lanes| <= |r.0| <= |lanes| + 1 && r.1 < |r.0|
    ensures forall j :: 0 <= j < |lanes| ==> r.0[j] == lanes[j]
    ensures |r.0| == |lanes| + 1 ==> r.0[|lanes|] == None
    ensures r.0[r.1] == None || r.0[r.1] == Some(node)
  {
    if Some(node) in lanes then (lanes, IndexOf(lanes, Some(node))) else FreeColumn(lanes)
  }

  /** The columns reserved for `node`. */
  function ReservedFor<N(==)>(lanes: Lanes<N>, node: N): set<nat> {
    set j: nat | j < |lanes| && lanes[j] == Some(node)
  }

  /** The columns reserved for some node. */
  function Occupied<N>(lanes: Lanes<N>): set<nat> {
    set j: nat | j < |lanes| && lanes[j].Some?
  }

  /** Frees every column reserved for `node` and leaves the others alone. */
  function Release<N(==)>(lanes: Lanes<N>, node: N): (r: Lanes<N>)
    ensures |r| == |lanes|
    ensures forall j {:trigger r[j]} :: 0 <= j < |lanes| ==> r[j] == if lanes[j] == Some(node) then None else lanes[j]
  {
    seq(|lanes|, j requires 0 <= j < |lanes| => if lanes[j] == Some(node) then None else lanes[j])
  }

  /** `min(order.index(c) for c in cs)`: the position in `order` of the child drawn first. */
  function MinIndex<N(==)>(order: seq<N>, cs: seq<N>): (m: nat)
    requires |cs| > 0 && forall c :: c in cs ==> c in order
    ensures m < |order| && order[m] in cs
    ensures forall c :: c in cs ==> m <= IndexOf(order, c)
  {
    if |cs| == 1 then IndexOf(order, cs[0])
    else
      var m0, m1 := IndexOf(order, cs[0]), MinIndex(order, cs[1..]);
      assert forall c :: c in cs ==> c == cs[0] || c in cs[1..];
      if m0 <= m1 then m0 else m1
  }

  /**
   * The loop over the children of a node (visited in the order `cs`): each
   * child other than `closest` is given the first free column, or a new one,
   * and that column joins `above`.
   */
  function Reserve<N(==)>(lanes: Lanes<N>, above: set<nat>, cs: seq<N>, closest: N): (r: (Lanes<N>, set<nat>))
    decreases |cs|
  {
    if cs == [] then (lanes, above)
    else if cs[0] == closest then Reserve(lanes, above, cs[1..], closest)
    else
      var free := FreeColumn(lanes);
      Reserve(free.0[free.1 := Some(cs[0])], above + {free.1}, cs[1..], closest)
  }

  /**
   * One pass of the drawing loop for `node`, whose children are visited as
   * `cs`: the lanes afterwards and the columns leading to the children.
   */
  function Connected<N(==)>(lanes: Lanes<N>, node: N, cs: seq<N>, order: seq<N>): (Lanes<N>, set<nat>)
    requires forall c :: c in cs ==> c in order
  {
    var placed := Place(lanes, node);
    Connect(Release(placed.0, node), placed.1, cs, order)
  }

  /** The lanes after the row of `node`. */
  function NextLanes<N(==)>(lanes: Lanes<N>, node: N, cs: seq<N>, order: seq<N>): Lanes<N>
    requires forall c :: c in cs ==> c in order
  {
    Connected(lanes, node, cs, order).0
  }

  /** The columns the row of `node` connects to its children through. */
  function AboveSet<N(==)>(lanes: Lanes<N>, node: N, cs: seq<N>, order: seq<N>): set<nat>
    requires forall c :: c in cs ==> c in order
  {
    Connected(lanes, node, cs, order).1
  }

  /** The row of `node`, whose children are visited as `cs`. */
  function RowOf<N(==)>(lanes: Lanes<N>, node: N, cs: seq<N>, order: seq<N>): (row: Row<N>)
    requires forall c :: c in cs ==> c in order
    ensures row.node == node
  {
    var placed := Place(lanes, node);
    var l1, col := placed.0, placed.1;
    var l2 := Release(l1, node);
    var connected := Connected(lanes, node, cs, order);
    Row(node, col, Ascending(connected.1, |connected.0|),
        Ascending(ReservedFor(l1, node), |l1|), Ascending(Occupied(l2), |l2|))
  }

  /**
   * The children of a node drawn in column `col`: none for a leaf; otherwise
   * `col` goes to the child earliest in `order` and the others get columns
   * of their own.
   */
  function Connect<N(==)>(lanes: Lanes<N>, col: nat, cs: seq<N>, order: seq<N>): (r: (Lanes<N>, set<nat>))
    requires col < |lanes| && forall c :: c in cs ==> c in order
  {
    if cs == [] then (lanes, {})
    else
      var closest := order[MinIndex(order, cs)];
      Reserve(lanes[col := Some(closest)], {col}, cs, closest)
  }

  /** Every node of `order` has its children listed in `visit`, and they are nodes of `order`. */
  predicate Visits<N(==)>(order: seq<N>, visit: map<N, seq<N>>) {
    forall n :: n in order ==> n in visit && forall c :: c in visit[n] ==> c in order
  }

  /** The lanes after the first `k` rows. */
  function LanesAfter<N(==)>(order: seq<N>, visit: map<N, seq<N>>, k: nat): Lanes<N>
    requires Visits(order, visit) && k <= |order|
  {
    if k == 0 then [] else NextLanes(LanesAfter(order, visit, k - 1), order[k - 1], visit[order[k - 1]], order)
  }

  /** The row drawn for `order[k]`. */
  function RowAt<N(==)>(order: seq<N>, visit: map<N, seq<N>>, k: nat): (row: Row<N>)
    requires Visits(order, visit) && k < |order|
    ensures row.node == order[k]
  {
    RowOf(LanesAfter(order, visit, k), order[k], visit[order[k]], order)
  }

  /** The rows of the first `k` nodes: one per node, in order. */
  function RowsUpTo<N(==)>(order: seq<N>, visit: map<N, seq<N>>, k: nat): (rows: seq<Row<N>>)
    requires Visits(order, visit) && k <= |order|
    ensures |rows| == k
    ensures forall j {:trigger rows[j]} :: 0 <= j < k ==> rows[j].node == order[j]
  {
    if k == 0 then [] else RowsUpTo(order, visit, k - 1) + [RowAt(order, visit, k - 1)]
  }

  /** The drawing of the whole order: its width and one row per node, in order. */
  function Draw<N(==)>(order: seq<N>, visit: map<N, seq<N>>): (r: (nat, seq<Row<N>>))
    requires Visits(order, visit)
    ensures |r.1| == |order|
    ensures forall k {:trigger r.1[k]} :: 0 <= k < |order| ==> r.1[k].node == order[k]
  {
    (|LanesAfter(order, visit, |order|)|, RowsUpTo(order, visit, |order|))
  }

  /** `visit[n]` lists each child of `n` once: the order `draw_stack_graph` iterates the set `g[n].children` in. */
  ghost predicate Enumerates<N>(nodes: set<N>, edges: set<Edge<N>>, visit: map<N, seq<N>>) {
    forall n :: n in nodes ==> n in visit && Distinct(visit[n]) && Elems(visit[n]) == Children(edges, n)
  }

  lemma EnumeratesVisits<N>(nodes: set<N>, edges: set<Edge<N>>, order: seq<N>, visit: map<N, seq<N>>)
    requires EdgesWithin(nodes, edges) && IsPermutation(order, nodes)
    requires Enumerates(nodes, edges, visit)
    ensures Visits(order, visit)
  {
    forall n | n in order
      ensures n in visit && forall c :: c in visit[n] ==> c in order
    {
      assert n in Elems(order);
      forall c | c in visit[n] ensures c in order {
        assert c in Children(edges, n);
        var e :| e in edges && e.parent == n && e.child == c;
        assert c in Elems(order);
      }
    }
  }

  /** The lanes and rows after the first `i` passes of the drawing loop. */
  ghost predicate DrawnUpTo<N>(order: seq<N>, visit: map<N, seq<N>>, i: nat, lanes: Lanes<N>, rows: seq<Row<N>>) {
    && Visits(order, visit)
    && i <= |order|
    && lanes == LanesAfter(order, visit, i)
    && rows == RowsUpTo(order, visit, i)
  }

  lemma DrawnNext<N>(order: seq<N>, visit: map<N, seq<N>>, i: nat, lanes: Lanes<N>, rows: seq<Row<N>>)
    requires DrawnUpTo(order, visit, i, lanes, rows) && i < |order|
    ensures DrawnUpTo(order, visit, i + 1, NextLanes(lanes, order[i], visit[order[i]], order),
                      rows + [RowOf(lanes, order[i], visit[order[i]], order)])
  {
  }

  lemma DrawnAll<N>(order: seq<N>, visit: map<N, seq<N>>, lanes: Lanes<N>, rows: seq<Row<N>>)
    requires DrawnUpTo(order, visit, |order|, lanes, rows)
    ensures (|lanes|, rows) == Draw(order, visit)
  {
  }

  /** `if g[node].children` agrees with whether `visit[node]` is empty. */
  lemma HasChildrenTest<N>(nodes: set<N>, edges: set<Edge<N>>, visit: map<N, seq<N>>, g: Graph<N>, node: N)
    requires IsIndex(g, nodes, edges) && Enumerates(nodes, edges, visit) && node in nodes
    ensures node in g && node in visit
    ensures g[node].children != {} <==> visit[node] != []
  {
    if visit[node] != [] {
      assert visit[node][0] in Elems(visit[node]);
    }
  }

  /**
   * The drawing state: `next_node`, and the `drawing` namespace that the
   * inner `empty_column_or_new` updates together with it.
   */
  class StackDrawing<N(==)> {
    var nextNode: Lanes<N>
    var width: nat
    var rows: seq<Row<N>>

    ghost predicate Valid()
      reads this
    {
      width == |nextNode|
    }

    constructor ()
      ensures Valid() && nextNode == [] && rows == []
    {
      nextNode := [];
      width := 0;
      rows := [];
    }

    /** `empty_column_or_new`. */
    method EmptyColumnOrNew() returns (col: nat)
      requires Valid()
      modifies this
      ensures Valid() && rows == old(rows)
      ensures (nextNode, col) == FreeColumn(old(nextNode))
    {
      if None !in nextNode {
        nextNode := nextNode + [None];
        width := width + 1;
        return width - 1;
      }
      col := IndexOf(nextNode, None);
    }

    /** The loop over the columns: frees those reserved for `node` and returns them, ascending. */
    method ReleaseNode(node: N) returns (below: seq<nat>)
      requires Valid()
      modifies this
      ensures Valid() && rows == old(rows)
      ensures nextNode == Release(old(nextNode), node)
      ensures below == Ascending(ReservedFor(old(nextNode), node), |old(nextNode)|)
    {
      below := [];
      var fromCol := 0;
      while fromCol < |nextNode|
        invariant Valid() && rows == old(rows)
        invariant |nextNode| == |old(nextNode)| && fromCol <= |nextNode|
        invariant forall j :: 0 <= j < fromCol ==> nextNode[j] == if old(nextNode)[j] == Some(node) then None else old(nextNode)[j]
        invariant forall j :: fromCol <= j < |nextNode| ==> nextNode[j] == old(nextNode)[j]
        invariant below == Ascending(ReservedFor(old(nextNode), node), fromCol)
      {
        if nextNode[fromCol] == Some(node) {
          below := below + [fromCol];
          nextNode := nextNode[fromCol := None];
        }
        fromCol := fromCol + 1;
      }
    }

    /** The loop over the children: every child but `closest` is given a free or new column. */
    method ReserveChildren(above0: set<nat>, cs: seq<N>, closest: N) returns (above: set<nat>)
      requires Valid()
      modifies this
      ensures Valid() && rows == old(rows)
      ensures (nextNode, above) == Reserve(old(nextNode), above0, cs, closest)
    {
      above := above0;
      var k := 0;
      while k < |cs|
        invariant Valid() && rows == old(rows)
        invariant k <= |cs|
        invariant Reserve(nextNode, above, cs[k..], closest) == Reserve(old(nextNode), above0, cs, closest)
      {
        var child := cs[k];
        assert cs[k..] == [child] + cs[k + 1..];
        if child != closest {
          var position := EmptyColumnOrNew();
          nextNode := nextNode[position := Some(child)];
          above := above + {position};
        }
        k := k + 1;
      }
    }

    /** The body of the drawing loop for `node`, whose children are visited as `cs`. */
    method DrawRow(node: N, hasChildren: bool, cs: seq<N>, order: seq<N>)
      requires Valid()
      requires forall c :: c in cs ==> c in order
      requires hasChildren <==> cs != []
      modifies this
      ensures Valid()
      ensures nextNode == NextLanes(old(nextNode), node, cs, order)
      ensures rows == old(rows) + [RowOf(old(nextNode), node, cs, order)]
    {
      var col;
      if Some(node) in nextNode {
        col := IndexOf(nextNode, Some(node));
      } else {
        col := EmptyColumnOrNew();
      }
      ghost var l1 := nextNode;
      assert (l1, col) == Place(old(nextNode), node);
      var below := ReleaseNode(node);
      var other := Ascending(Occupied(nextNode), |nextNode|);
      var above: set<nat> := {};
      if hasChildren {
        var closest := order[MinIndex(order, cs)];
        nextNode := nextNode[col := Some(closest)];
        above := ReserveChildren({col}, cs, closest);
      }
      rows := rows + [Row(node, col, Ascending(above, |nextNode|), below, other)];
    }
  }

  /**
   * `draw_stack_graph`: the width and the rows of the drawing of `order`,
   * where `visit[n]` is the order in which the children of `n` are visited.
   */
  method DrawStackGraph<N(==)>(nodes: set<N>, edges: set<Edge<N>>, order: seq<N>, visit: map<N, seq<N>>)
    returns (width: nat, rows: seq<Row<N>>)
    requires EdgesWithin(nodes, edges) && IsPermutation(order, nodes)
    requires Enumerates(nodes, edges, visit)
    ensures Visits(order, visit)
    ensures (width, rows) == Draw(order, visit)
  {
    EnumeratesVisits(nodes, edges, order, visit);
    var g := BuildGraph(nodes, edges);
    var drawing := new StackDrawing();
    var i := 0;
    while i < |order|
      invariant i <= |order|
      invariant drawing.Valid()
      invariant DrawnUpTo(order, visit, i, drawing.nextNode, drawing.rows)
    {
      var node := order[i];
      HasChildrenTest(nodes, edges, visit, g, node);
      ghost var lanes0, rows0 := drawing.nextNode, drawing.rows;
      drawing.DrawRow(node, g[node].children != {}, visit[node], order);
      DrawnNext(order, visit, i, lanes0, rows0);
      i := i + 1;
    }
    DrawnAll(order, visit, drawing.nextNode, drawing.rows);
    width, rows := drawing.width, drawing.rows;
  }
}

module StackDrawingProps {
  import opened Wrappers
  import opened Stacks
  import opened StackDrawing

  /**
   * Reserving columns for the children: the columns handed out are new, or
   * were free, each holds a child other than `closest`, every such child
   * gets one, no two get the same one, and every other column is untouched.
   */
  lemma {:induction false} ReserveFacts<N>(lanes: Lanes<N>, above: set<nat>, cs: seq<N>, closest: N)
    requires forall j :: j in above ==> j < |lanes| && lanes[j].Some?
    ensures var r := Reserve(lanes, above, cs, closest);
      && above <= r.1
      && |lanes| <= |r.0|
      && (forall j :: j in r.1 ==> j < |r.0| && r.0[j].Some?)
      && (forall j :: 0 <= j < |lanes| && j !in r.1 - above ==> r.0[j] == lanes[j])
      && (forall j :: |lanes| <= j < |r.0| ==> j in r.1 - above)
      && (forall j :: j in r.1 - above ==> (j >= |lanes| || lanes[j] == None) && r.0[j].value in cs && r.0[j].value != closest)
      && (forall c :: c in cs && c != closest ==> exists j :: j in r.1 - above && r.0[j] == Some(c))
      && (Distinct(cs) ==> forall i, j :: i in r.1 - above && j in r.1 - above && r.0[i] == r.0[j] ==> i == j)
    decreases |cs|
  {
    if cs == [] {
    } else if cs[0] == closest {
      ReserveFacts(lanes, above, cs[1..], closest);
      assert forall c :: c in cs && c != closest ==> c in cs[1..];
    } else {
      var l, p := FreeColumn(lanes).0, FreeColumn(lanes).1;
      var lanes1, above1 := l[p := Some(cs[0])], above + {p};
      assert p !in above;
      ReserveFacts(lanes1, above1, cs[1..], closest);
      var r := Reserve(lanes1, above1, cs[1..], closest);
      assert r == Reserve(lanes, above, cs, closest);
      assert r.1 - above == (r.1 - above1) + {p};
      assert r.0[p] == Some(cs[0]);
      forall c | c in cs && c != closest
        ensures exists j :: j in r.1 - above && r.0[j] == Some(c)
      {
        if c != cs[0] {
          assert c in cs[1..];
        }
      }
    }
  }

  /** Connecting a node to its children, in terms of `ReserveFacts`. */
  lemma ConnectFacts<N>(lanes: Lanes<N>, col: nat, cs: seq<N>, order: seq<N>)
    requires col < |lanes| && lanes[col] == None
    requires forall c :: c in cs ==> c in order
    requires Distinct(cs)
    ensures var r := Connect(lanes, col, cs, order);
      && |lanes| <= |r.0|
      && (forall j :: j in r.1 ==> j < |r.0|)
      && (forall j :: j in r.1 ==> j >= |lanes| || lanes[j] == None)
      && (forall j :: 0 <= j < |lanes| && j !in r.1 ==> r.0[j] == lanes[j])
      && (forall j :: |lanes| <= j < |r.0| ==> j in r.1)
      && (cs == [] ==> r.1 == {})
      && (cs != [] ==>
            && col in r.1
            && r.0[col] == Some(order[MinIndex(order, cs)])
            && (forall j :: j in r.1 ==> r.0[j].Some? && r.0[j].value in cs)
            && (forall c :: c in cs ==> exists j :: j in r.1 && r.0[j] == Some(c))
            && (forall i, j :: i in r.1 && j in r.1 && r.0[i] == r.0[j] ==> i == j))
  {
    if cs != [] {
      var closest := order[MinIndex(order, cs)];
      var l := lanes[col := Some(closest)];
      assert |l| == |lanes|;
      ReserveFacts(l, {col}, cs, closest);
      var r := Reserve(l, {col}, cs, closest);
      assert r.0[col] == Some(closest);
      forall j | |lanes| <= j < |r.0| ensures j in r.1 {
        assert j in r.1 - {col};
      }
      forall c | c in cs
        ensures exists j :: j in r.1 && r.0[j] == Some(c)
      {
        if c != closest {
          var j :| j in r.1 - {col} && r.0[j] == Some(c);
        }
      }
    }
  }

  /**
   * What reaches the node and what passes it: `below` is exactly the set of
   * columns reserved for it, `other` exactly the set reserved for other nodes.
   */
  lemma StepColumns<N>(lanes: Lanes<N>, node: N, cs: seq<N>, order: seq<N>)
    requires forall c :: c in cs ==> c in order
    ensures var row := RowOf(lanes, node, cs, order);
      && (forall j :: j in row.below <==> 0 <= j < |lanes| && lanes[j] == Some(node))
      && (forall j :: j in row.other <==> 0 <= j < |lanes| && lanes[j].Some? && lanes[j] != Some(node))
  {
    hide Connected;
    var l1, col := Place(lanes, node).0, Place(lanes, node).1;
    PlaceKeeps(lanes, node);
    var l2 := Release(l1, node);
    var row := RowOf(lanes, node, cs, order);
    assert row.below == Ascending(ReservedFor(l1, node), |l1|);
    assert row.other == Ascending(Occupied(l2), |l2|);
    forall j
      ensures j in row.below <==> 0 <= j < |lanes| && lanes[j] == Some(node)
    {
      if 0 <= j < |l1| {
        assert j in ReservedFor(l1, node) <==> l1[j] == Some(node);
      }
    }
    forall j
      ensures j in row.other <==> 0 <= j < |lanes| && lanes[j].Some? && lanes[j] != Some(node)
    {
      if 0 <= j < |l2| {
        assert j in Occupied(l2) <==> l2[j].Some?;
      }
    }
  }

  /**
   * Where the node goes: the first column reserved for it; when there is
   * none, nothing reaches it from below and it takes the first free column,
   * or a new one when none is free.
   */
  lemma StepPlacement<N>(lanes: Lanes<N>, node: N, cs: seq<N>, order: seq<N>)
    requires forall c :: c in cs ==> c in order
    ensures var row := RowOf(lanes, node, cs, order);
      && (Some(node) in lanes ==> row.pos == IndexOf(lanes, Some(node)))
      && (Some(node) !in lanes && None in lanes ==> row.pos == IndexOf(lanes, None) && row.below == [])
      && (Some(node) !in lanes && None !in lanes ==> row.pos == |lanes| && row.below == [])
  {
    hide Connected;
    var l1 := Place(lanes, node).0;
    PlaceKeeps(lanes, node);
    if Some(node) !in lanes {
      NoneAscending(ReservedFor(l1, node), |l1|);
    }
  }

  /** `sorted` of a set with no column below the bound is empty. */
  lemma {:induction false} NoneAscending(s: set<nat>, n: nat)
    requires forall x :: x in s ==> x >= n
    ensures Ascending(s, n) == []
  {
    if n > 0 {
      NoneAscending(s, n - 1);
    }
  }

  /** `Place` keeps the lanes, except perhaps for a free column appended. */
  lemma PlaceKeeps<N>(lanes: Lanes<N>, node: N)
    ensures var l1, col := Place(lanes, node).0, Place(lanes, node).1;
      && (forall j :: 0 <= j < |lanes| ==> l1[j] == lanes[j])
      && (forall j :: |lanes| <= j < |l1| ==> l1[j] == None)
      && (col >= |lanes| || lanes[col] == None || lanes[col] == Some(node))
  {
    var l1, col := Place(lanes, node).0, Place(lanes, node).1;
    forall j | 0 <= j < |lanes| ensures l1[j] == lanes[j] {
      assert l1[..|lanes|][j] == lanes[j];
    }
  }

  /** The columns of a row all lie within the lanes after it, and the lanes never shrink. */
  lemma StepBounds<N>(lanes: Lanes<N>, node: N, cs: seq<N>, order: seq<N>)
    requires forall c :: c in cs ==> c in order
    ensures var lanes', row := NextLanes(lanes, node, cs, order), RowOf(lanes, node, cs, order);
      && |lanes| <= |lanes'|
      && row.pos < |lanes'|
      && (forall j :: j in row.above ==> j < |lanes'|)
      && (forall j :: j in row.below ==> j < |lanes'|)
      && (forall j :: j in row.other ==> j < |lanes'|)
  {
    var l1, col := Place(lanes, node).0, Place(lanes, node).1;
    var l2 := Release(l1, node);
    if cs != [] {
      var closest := order[MinIndex(order, cs)];
      ReserveFacts(l2[col := Some(closest)], {col}, cs, closest);
    }
  }

  /**
   * The lanes after a row: none reserved for a leaf. Otherwise `pos` now
   * leads to the child earliest in `order`, and every other child is given
   * a column of its own that was free (or reserved for this node, hence just
   * freed) or new; every other column keeps its reservation.
   */
  lemma StepLanes<N>(lanes: Lanes<N>, node: N, cs: seq<N>, order: seq<N>)
    requires forall c :: c in cs ==> c in order
    requires Distinct(cs)
    ensures var lanes', above := NextLanes(lanes, node, cs, order), AboveSet(lanes, node, cs, order);
      var pos := Place(lanes, node).1;
      && |lanes| <= |lanes'|
      && (forall j :: j in above ==> j < |lanes'|)
      && (cs == [] ==> above == {})
      && (cs != [] ==>
            && pos in above
            && lanes'[pos] == Some(order[MinIndex(order, cs)])
            && (forall j :: j in above ==> lanes'[j].Some? && lanes'[j].value in cs)
            && (forall c :: c in cs ==> exists j :: j in above && lanes'[j] == Some(c))
            && (forall i, j :: i in above && j in above && lanes'[i] == lanes'[j] ==> i == j))
      && (forall j :: j in above ==> j >= |lanes| || lanes[j] == None || lanes[j] == Some(node))
      && (forall j :: 0 <= j < |lanes| && j !in above ==>
            lanes'[j] == if lanes[j] == Some(node) then None else lanes[j])
      && (forall j :: |lanes| <= j < |lanes'| && j !in above ==> lanes'[j] == None)
  {
    var l1, col := Place(lanes, node).0, Place(lanes, node).1;
    PlaceKeeps(lanes, node);
    var l2 := Release(l1, node);
    assert l2[col] == None;
    ConnectFacts(l2, col, cs, order);
    var c := Connect(l2, col, cs, order);
    assert NextLanes(lanes, node, cs, order) == c.0 && AboveSet(lanes, node, cs, order) == c.1;
    forall j | 0 <= j < |lanes| && j !in c.1
      ensures c.0[j] == if lanes[j] == Some(node) then None else lanes[j]
    {
      assert c.0[j] == l2[j];
    }
    forall j | |lanes| <= j < |c.0| && j !in c.1
      ensures c.0[j] == None
    {
      assert j < |l2| && c.0[j] == l2[j];
    }
  }

  /** The columns above a row are those of `AboveSet`, and a leaf has none. */
  lemma StepAbove<N>(lanes: Lanes<N>, node: N, cs: seq<N>, order: seq<N>)
    requires forall c :: c in cs ==> c in order
    ensures var row := RowOf(lanes, node, cs, order);
      && row.pos == Place(lanes, node).1
      && (forall j :: j in row.above <==> j in AboveSet(lanes, node, cs, order))
      && (cs == [] ==> row.above == [])
  {
    var l1, col := Place(lanes, node).0, Place(lanes, node).1;
    var l2 := Release(l1, node);
    var c := Connect(l2, col, cs, order);
    var above := AboveSet(lanes, node, cs, order);
    assert above == c.1;
    if cs != [] {
      var closest := order[MinIndex(order, cs)];
      ReserveFacts(l2[col := Some(closest)], {col}, cs, closest);
    } else {
      NoneAscending(above, |c.0|);
    }
  }

  /** The `k`-th row of the drawing is the one drawn on the `k`-th pass. */
  lemma {:induction false} RowsUpToAt<N>(order: seq<N>, visit: map<N, seq<N>>, n: nat, k: nat)
    requires Visits(order, visit) && k < n <= |order|
    ensures RowsUpTo(order, visit, n)[k] == RowAt(order, visit, k)
    decreases n
  {
    hide RowOf, NextLanes;
    if k < n - 1 {
      RowsUpToAt(order, visit, n - 1, k);
    }
  }

  /** The lanes only ever grow. */
  lemma {:induction false} LanesGrow<N>(order: seq<N>, visit: map<N, seq<N>>, k: nat, m: nat)
    requires Visits(order, visit) && k <= m <= |order|
    ensures |LanesAfter(order, visit, k)| <= |LanesAfter(order, visit, m)|
    decreases m - k
  {
    hide RowOf, NextLanes;
    if k < m {
      StepBounds(LanesAfter(order, visit, k), order[k], visit[order[k]], order);
      LanesGrow(order, visit, k + 1, m);
    }
  }

  /** Every column a row mentions is below the width of the drawing. */
  lemma DrawBounds<N>(order: seq<N>, visit: map<N, seq<N>>)
    requires Visits(order, visit)
    ensures var d := Draw(order, visit);
      forall k :: 0 <= k < |order| ==>
        && d.1[k].pos < d.0
        && (forall j :: j in d.1[k].above ==> j < d.0)
        && (forall j :: j in d.1[k].below ==> j < d.0)
        && (forall j :: j in d.1[k].other ==> j < d.0)
  {
    hide RowOf, NextLanes;
    var d := Draw(order, visit);
    forall k | 0 <= k < |order|
      ensures d.1[k].pos < d.0
      ensures forall j :: j in d.1[k].above ==> j < d.0
      ensures forall j :: j in d.1[k].below ==> j < d.0
      ensures forall j :: j in d.1[k].other ==> j < d.0
    {
      RowsUpToAt(order, visit, |order|, k);
      StepBounds(LanesAfter(order, visit, k), order[k], visit[order[k]], order);
      LanesGrow(order, visit, k + 1, |order|);
    }
  }

  /** The `above`, `below` and `other` columns of every row are in ascending order. */
  lemma RowsSorted<N>(order: seq<N>, visit: map<N, seq<N>>)
    requires Visits(order, visit)
    ensures var rows := Draw(order, visit).1;
      forall k :: 0 <= k < |order| ==>
        Increasing(rows[k].above) && Increasing(rows[k].below) && Increasing(rows[k].other)
  {
    forall k | 0 <= k < |order|
      ensures var row := Draw(order, visit).1[k];
        Increasing(row.above) && Increasing(row.below) && Increasing(row.other)
    {
      RowsUpToAt(order, visit, |order|, k);
      var lanes := LanesAfter(order, visit, k);
      var node := order[k];
      var cs := visit[node];
      var l1 := Place(lanes, node).0;
      var connected := Connected(lanes, node, cs, order);
      AscendingSorted(connected.1, |connected.0|);
      AscendingSorted(ReservedFor(l1, node), |l1|);
      AscendingSorted(Occupied(Release(l1, node)), |l1|);
    }
  }

  /** Each node's children come after it in `order` and are listed once. */
  ghost predicate TopologicalVisit<N>(order: seq<N>, visit: map<N, seq<N>>) {
    && Visits(order, visit)
    && Distinct(order)
    && (forall n :: n in order ==> Distinct(visit[n]))
    && (forall i, c :: 0 <= i < |order| && c in visit[order[i]] ==> c in order[i + 1..])
  }

  /** A value in `s[k..]` other than `s[k]` lies in `s[k + 1..]`. */
  lemma TailMember<T>(s: seq<T>, k: nat, v: T)
    requires k < |s| && v in s[k..] && v != s[k]
    ensures v in s[k + 1..]
  {
    assert s[k..] == [s[k]] + s[k + 1..];
  }

  /** Every reserved column is reserved for a node of `rest`. */
  ghost predicate ReservedWithin<N>(lanes: Lanes<N>, rest: seq<N>) {
    forall j :: 0 <= j < |lanes| && lanes[j].Some? ==> lanes[j].value in rest
  }

  /**
   * Drawing an order produced by the sort, with each node's children listed
   * once, meets `TopologicalVisit`: every child is drawn after its parent.
   */
  lemma SortedOrderVisit<N>(nodes: set<N>, edges: set<Edge<N>>, order: seq<N>, visit: map<N, seq<N>>)
    requires EdgesWithin(nodes, edges) && IsTopological(order, nodes, edges)
    requires Enumerates(nodes, edges, visit)
    ensures TopologicalVisit(order, visit)
  {
    EnumeratesVisits(nodes, edges, order, visit);
    TopologicalRespectsEdges(order, nodes, edges);
    forall i, c | 0 <= i < |order| && c in visit[order[i]]
      ensures c in order[i + 1..]
    {
      assert c in Elems(visit[order[i]]);
      var e :| e in edges && e.parent == order[i] && e.child == c;
      assert c in Elems(order);
      var j :| 0 <= j < |order| && order[j] == c;
      assert Edge(order[j], order[i]) in edges;
      assert order[i + 1..][j - i - 1] == c;
    }
  }

  /** The lanes before row `k` are reserved only for nodes still to be drawn. */
  lemma {:induction false} ReservationsAhead<N>(order: seq<N>, visit: map<N, seq<N>>, k: nat)
    requires TopologicalVisit(order, visit) && k <= |order|
    ensures ReservedWithin(LanesAfter(order, visit, k), order[k..])
  {
    hide RowOf, NextLanes;
    if k > 0 {
      ReservationsAhead(order, visit, k - 1);
      var lanes := LanesAfter(order, visit, k - 1);
      assert ReservedWithin(lanes, order[k - 1..]);
      var node := order[k - 1];
      StepLanes(lanes, node, visit[node], order);
      var lanes' := LanesAfter(order, visit, k);
      var above := AboveSet(lanes, node, visit[node], order);
      forall j | 0 <= j < |lanes'| && lanes'[j].Some?
        ensures lanes'[j].value in order[k..]
      {
        var v := lanes'[j].value;
        if j in above {
          assert v in visit[order[k - 1]];
        } else {
          assert j < |lanes| && lanes[j] == Some(v) && v != node;
          assert lanes[j].value in order[k - 1..];
          TailMember(order, k - 1, v);
        }
      }
    }
  }

  /** In a sequence without repetitions, `s[k]` does not recur from `m > k` on. */
  lemma DistinctTail<T>(s: seq<T>, k: nat, m: nat)
    requires Distinct(s) && k < m <= |s|
    ensures s[k] !in s[m..]
  {
    forall i | 0 <= i < |s| - m ensures s[m..][i] != s[k] {
      assert s[m..][i] == s[m + i];
    }
  }

  /** Once drawn, a node is never reserved a column again. */
  lemma DrawnNodeFreed<N>(order: seq<N>, visit: map<N, seq<N>>, k: nat, m: nat)
    requires TopologicalVisit(order, visit) && k < m <= |order|
    ensures Some(order[k]) !in LanesAfter(order, visit, m)
  {
    hide RowOf, NextLanes;
    ReservationsAhead(order, visit, m);
    var lanes := LanesAfter(order, visit, m);
    assert ReservedWithin(lanes, order[m..]);
    DistinctTail(order, k, m);
    forall j | 0 <= j < |lanes| ensures lanes[j] != Some(order[k]) {
      if lanes[j].Some? {
        assert lanes[j].value in order[m..];
      }
    }
  }

  /**
   * A row keeps the reservations of every other node and adds one for each
   * of its children, and no more.
   */
  lemma StepReserves<N>(lanes: Lanes<N>, node: N, cs: seq<N>, order: seq<N>)
    requires forall c :: c in cs ==> c in order
    requires Distinct(cs)
    ensures var lanes' := NextLanes(lanes, node, cs, order);
      forall x :: x != node ==> (Some(x) in lanes' <==> Some(x) in lanes || x in cs)
  {
    StepLanes(lanes, node, cs, order);
    var lanes' := NextLanes(lanes, node, cs, order);
    var above := AboveSet(lanes, node, cs, order);
    forall x | x != node
      ensures Some(x) in lanes' <==> Some(x) in lanes || x in cs
    {
      if Some(x) in lanes' {
        var j :| 0 <= j < |lanes'| && lanes'[j] == Some(x);
        if j in above {
          assert x in cs;
        } else {
          assert j < |lanes| && lanes[j] == Some(x);
        }
      }
      if x in cs {
        var j :| j in above && lanes'[j] == Some(x);
      }
      if Some(x) in lanes {
        var j :| 0 <= j < |lanes| && lanes[j] == Some(x);
        assert j !in above;
        assert lanes'[j] == Some(x);
      }
    }
  }

  /**
   * Before row `k`, a node still to be drawn has a column reserved for it
   * exactly when one of the first `k` nodes is its parent.
   */
  lemma {:induction false} ReservedIffParentDrawn<N>(order: seq<N>, visit: map<N, seq<N>>, k: nat)
    requires TopologicalVisit(order, visit) && k <= |order|
    ensures forall m :: k <= m < |order| ==>
      (Some(order[m]) in LanesAfter(order, visit, k) <==> exists i :: 0 <= i < k && order[m] in visit[order[i]])
  {
    hide RowOf, NextLanes;
    if k > 0 {
      ReservedIffParentDrawn(order, visit, k - 1);
      var lanes := LanesAfter(order, visit, k - 1);
      var node := order[k - 1];
      StepReserves(lanes, node, visit[node], order);
      forall m | k <= m < |order|
        ensures Some(order[m]) in LanesAfter(order, visit, k) <==> exists i :: 0 <= i < k && order[m] in visit[order[i]]
      {
        var x := order[m];
        assert x != node;
        if exists i :: 0 <= i < k && x in visit[order[i]] {
          var i :| 0 <= i < k && x in visit[order[i]];
          assert i < k - 1 || x in visit[node];
        }
      }
    }
  }

  /** A row connects to columns below it exactly when the node has a parent drawn above it. */
  lemma BelowIffParent<N>(order: seq<N>, visit: map<N, seq<N>>, k: nat)
    requires TopologicalVisit(order, visit) && k < |order|
    ensures Draw(order, visit).1[k].below != [] <==> exists i :: 0 <= i < k && order[k] in visit[order[i]]
  {
    hide RowOf, NextLanes;
    RowsUpToAt(order, visit, |order|, k);
    var lanes := LanesAfter(order, visit, k);
    StepColumns(lanes, order[k], visit[order[k]], order);
    ReservedIffParentDrawn(order, visit, k);
    var row := RowAt(order, visit, k);
    if Some(order[k]) in lanes {
      assert IndexOf(lanes, Some(order[k])) in row.below;
    }
    if row.below != [] {
      assert row.below[0] in row.below;
    }
  }
}
