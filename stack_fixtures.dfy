/**
 * Stacks from tests/test_stacks.py on integer nodes, sorted by the
 * identity key. The favours-minimum and cycle tests use bare integers. The
 * other tests use `PHID-DREV-i`, which is written here as the integer `i`.
 * The complex test's key extracts exactly that integer. The single-node
 * and linear tests sort the strings themselves, and their string order
 * agrees with the order of `i` for `i` below 10.
 */
module StackFixtures {
  import opened Wrappers
  import opened Stacks

  function Identity(x: int): int { x }

  /** A stack of one revision sorts to just that revision. */
  method SortSingleNode() returns (r: Result<seq<int>, SortError>)
    ensures r == Ok([0])
  {
    r := SortStackTopological({0}, {}, Identity);
    assert !IsCycle({}, [0]);
    assert r.Ok?;
    var order := r.value;
    DistinctCard(order);
    assert |order| == 1;
    assert order[0] in Elems(order);
    assert order == [0];
  }

  /** 1, 2 and 3 form a cycle, so the sort fails although 4 is a source. */
  method SortCycle() returns (r: Result<seq<int>, SortError>)
    ensures r == Err(CycleError)
  {
    r := SortStackTopological({1, 2, 3, 4}, {Edge(1, 2), Edge(2, 3), Edge(3, 1), Edge(1, 4)}, Identity);
    assert IsCycle({Edge(1, 2), Edge(2, 3), Edge(3, 1), Edge(1, 4)}, [1, 2, 3]);
    assert HasCycle({Edge(1, 2), Edge(2, 3), Edge(3, 1), Edge(1, 4)});
    assert r.Err?;
    assert r.error.CycleError?;
  }

  /** `range(lo, hi)`. */
  function Range(lo: int, hi: int): (r: seq<int>)
    requires lo <= hi
    ensures forall x :: x in r <==> lo <= x < hi
    decreases hi - lo
  {
    if lo == hi then [] else [lo] + Range(lo + 1, hi)
  }

  /** Nodes `0..n`. */
  function FanNodes(n: nat): set<int> {
    Elems(Range(0, n + 1))
  }

  /** Node 0 is a child of each of `1..n`. */
  function FanEdges(n: nat): set<Edge<int>> {
    set i | i in Range(1, n + 1) :: Edge(0, i)
  }

  /** `list(range(1, n + 1)) + [0]`. */
  function FanOrder(n: nat): seq<int> {
    seq(n, i requires 0 <= i < n => i + 1) + [0]
  }

  /**
   * A fan-in over `0..n` sorts parents first, smallest first, and the
   * shared child last.
   */
  lemma FanInGreedy(n: nat)
    ensures IsGreedyTopological(FanOrder(n), FanNodes(n), FanEdges(n), Identity)
  {
    var nodes, edges, order := FanNodes(n), FanEdges(n), FanOrder(n);
    assert forall k :: k in Parents(edges, k) ==> false;
    assert Parents(edges, 0) == Elems(Range(1, n + 1)) by {
      forall i | 1 <= i <= n ensures i in Parents(edges, 0) {
        assert Edge(0, i) in edges;
      }
    }
    assert forall k :: k != 0 ==> Parents(edges, k) == {};
    forall i, j | 0 <= i < j < |order| ensures order[i] != order[j] {
    }
    assert Elems(order) == nodes by {
      forall k | k in nodes ensures k in Elems(order) {
        if k == 0 { assert order[n] == 0; } else { assert order[k - 1] == k; }
      }
    }
    forall i | 0 <= i < |order| ensures GreedyAt(order, i, nodes, edges, Identity) {
      var done := order[..i];
      assert Elems(done) == Elems(Range(1, i + 1)) by {
        forall k | 1 <= k <= i ensures k in Elems(done) { assert done[k - 1] == k; }
      }
      if i < n {
        assert order[i] == i + 1;
        assert 0 !in Ready(nodes, edges, done) by { assert n in Parents(edges, 0); }
      } else {
        assert order[i] == 0;
      }
    }
  }

  /** The favours-minimum test: the sort of a fan-in over `0..9` is `[1, …, 9, 0]`. */
  method SortFanIn() returns (r: Result<seq<int>, SortError>)
    ensures r == Ok([1, 2, 3, 4, 5, 6, 7, 8, 9, 0])
  {
    var nodes, edges := FanNodes(9), FanEdges(9);
    FanInGreedy(9);
    GreedyIsTopological(FanOrder(9), nodes, edges, Identity);
    TopologicalIsAcyclic(nodes, edges, FanOrder(9));
    r := SortStackTopological(nodes, edges, Identity);
    GreedyOrderUnique(r.value, FanOrder(9), nodes, edges, Identity);
    assert FanOrder(9) == [1, 2, 3, 4, 5, 6, 7, 8, 9, 0];
  }

  /** Revision `i` stacked on revision `i - 1`, for `1 <= i < n`. */
  function ChainEdges(n: nat): set<Edge<int>> {
    set i | i in Range(0, n) && i > 0 :: Edge(i, i - 1)
  }

  /** In a chain only one revision is ready at a time, so the sort follows the chain. */
  lemma ChainGreedy(n: nat)
    ensures IsGreedyTopological(Range(0, n), Elems(Range(0, n)), ChainEdges(n), Identity)
  {
    var nodes, edges, order := Elems(Range(0, n)), ChainEdges(n), Range(0, n);
    RangeAt(0, n);
    forall k | 1 <= k < n ensures Parents(edges, k) == {k - 1} {
      assert k in Range(0, n);
      assert Edge(k, k - 1) in edges;
    }
    assert Parents(edges, 0) == {};
    forall i | 0 <= i < |order| ensures GreedyAt(order, i, nodes, edges, Identity) {
      var done := order[..i];
      assert Elems(done) == Elems(Range(0, i)) by {
        forall k | 0 <= k < i ensures k in Elems(done) { assert done[k] == order[k] == k; }
      }
      assert order[i] == i;
      assert forall m :: m in Ready(nodes, edges, done) ==> m == i;
    }
  }

  lemma {:induction false} RangeAt(lo: int, hi: int)
    requires lo <= hi
    ensures |Range(lo, hi)| == hi - lo
    ensures forall k :: 0 <= k < hi - lo ==> Range(lo, hi)[k] == lo + k
    decreases hi - lo
  {
    if lo < hi {
      RangeAt(lo + 1, hi);
    }
  }

  /** The linear test: a chain of ten revisions sorts to the chain itself. */
  method SortLinear() returns (r: Result<seq<int>, SortError>)
    ensures r == Ok([0, 1, 2, 3, 4, 5, 6, 7, 8, 9])
  {
    var nodes, edges := Elems(Range(0, 10)), ChainEdges(10);
    ChainGreedy(10);
    GreedyIsTopological(Range(0, 10), nodes, edges, Identity);
    TopologicalIsAcyclic(nodes, edges, Range(0, 10));
    r := SortStackTopological(nodes, edges, Identity);
    GreedyOrderUnique(r.value, Range(0, 10), nodes, edges, Identity);
    RangeTen();
  }

  lemma RangeTen()
    ensures Range(0, 10) == [0, 1, 2, 3, 4, 5, 6, 7, 8, 9]
  {
    RangeAt(0, 10);
  }

  /** The revisions of the complex test. */
  function ComplexNodes(): set<int> {
    {0, 1, 2, 3, 4, 5, 6, 7, 8, 9}
  }

  /** The complex test's edges, child first: 2 has two parents, 0 has two children. */
  function ComplexEdges(): set<Edge<int>> {
    {Edge(1, 0), Edge(2, 0), Edge(2, 3), Edge(4, 2), Edge(5, 4),
     Edge(6, 1), Edge(7, 6), Edge(7, 5), Edge(9, 7), Edge(8, 9)}
  }

  /** The order the complex test expects. */
  function ComplexOrder(): seq<int> {
    [0, 1, 3, 2, 4, 5, 6, 7, 9, 8]
  }

  lemma ComplexEdgesWithin()
    ensures EdgesWithin(ComplexNodes(), ComplexEdges())
  {
  }

  lemma ComplexParents()
    ensures Parents(ComplexEdges(), 0) == {} && Parents(ComplexEdges(), 1) == {0}
    ensures Parents(ComplexEdges(), 2) == {0, 3} && Parents(ComplexEdges(), 3) == {}
    ensures Parents(ComplexEdges(), 4) == {2} && Parents(ComplexEdges(), 5) == {4}
    ensures Parents(ComplexEdges(), 6) == {1} && Parents(ComplexEdges(), 7) == {5, 6}
    ensures Parents(ComplexEdges(), 8) == {9} && Parents(ComplexEdges(), 9) == {7}
  {
    var e := ComplexEdges();
    assert Edge(1, 0) in e && Edge(2, 0) in e && Edge(2, 3) in e && Edge(4, 2) in e && Edge(5, 4) in e;
    assert Edge(6, 1) in e && Edge(7, 6) in e && Edge(7, 5) in e && Edge(9, 7) in e && Edge(8, 9) in e;
  }

  /**
   * The ready revisions before each step of the complex sort, with the
   * revisions already emitted written out.
   */
  lemma ComplexStep0()
    ensures Ready(ComplexNodes(), ComplexEdges(), []) == {0, 3}
  {
    ComplexParents();
  }

  lemma ComplexStep1()
    ensures Ready(ComplexNodes(), ComplexEdges(), [0]) == {1, 3}
  {
    ComplexParents();
    assert Elems([0]) == {0};
  }

  lemma ComplexStep2()
    ensures Ready(ComplexNodes(), ComplexEdges(), [0, 1]) == {3, 6}
  {
    ComplexParents();
    assert Elems([0, 1]) == {0, 1};
  }

  lemma ComplexStep3()
    ensures Ready(ComplexNodes(), ComplexEdges(), [0, 1, 3]) == {2, 6}
  {
    ComplexParents();
    assert Elems([0, 1, 3]) == {0, 1, 3};
  }

  lemma ComplexStep4()
    ensures Ready(ComplexNodes(), ComplexEdges(), [0, 1, 3, 2]) == {4, 6}
  {
    ComplexParents();
    assert Elems([0, 1, 3, 2]) == {0, 1, 3, 2};
  }

  lemma ComplexStep5()
    ensures Ready(ComplexNodes(), ComplexEdges(), [0, 1, 3, 2, 4]) == {5, 6}
  {
    ComplexParents();
    assert Elems([0, 1, 3, 2, 4]) == {0, 1, 3, 2, 4};
  }

  lemma ComplexStep6()
    ensures Ready(ComplexNodes(), ComplexEdges(), [0, 1, 3, 2, 4, 5]) == {6}
  {
    ComplexParents();
    assert Elems([0, 1, 3, 2, 4, 5]) == {0, 1, 3, 2, 4, 5};
  }

  lemma ComplexStep7()
    ensures Ready(ComplexNodes(), ComplexEdges(), [0, 1, 3, 2, 4, 5, 6]) == {7}
  {
    ComplexParents();
    assert Elems([0, 1, 3, 2, 4, 5, 6]) == {0, 1, 3, 2, 4, 5, 6};
  }

  lemma ComplexStep8()
    ensures Ready(ComplexNodes(), ComplexEdges(), [0, 1, 3, 2, 4, 5, 6, 7]) == {9}
  {
    ComplexParents();
    assert Elems([0, 1, 3, 2, 4, 5, 6, 7]) == {0, 1, 3, 2, 4, 5, 6, 7};
  }

  lemma ComplexStep9()
    ensures Ready(ComplexNodes(), ComplexEdges(), [0, 1, 3, 2, 4, 5, 6, 7, 9]) == {8}
  {
    ComplexParents();
    assert Elems([0, 1, 3, 2, 4, 5, 6, 7, 9]) == {0, 1, 3, 2, 4, 5, 6, 7, 9};
  }

  /** Step `i` of the complex sort emits the smallest ready revision. */
  lemma ComplexGreedyAt(i: nat)
    requires i < 10
    ensures GreedyAt(ComplexOrder(), i, ComplexNodes(), ComplexEdges(), Identity)
  {
    var order := ComplexOrder();
    if i == 0 { assert order[..0] == []; ComplexStep0(); }
    else if i == 1 { assert order[..1] == [0]; ComplexStep1(); }
    else if i == 2 { assert order[..2] == [0, 1]; ComplexStep2(); }
    else if i == 3 { assert order[..3] == [0, 1, 3]; ComplexStep3(); }
    else if i == 4 { assert order[..4] == [0, 1, 3, 2]; ComplexStep4(); }
    else if i == 5 { assert order[..5] == [0, 1, 3, 2, 4]; ComplexStep5(); }
    else if i == 6 { assert order[..6] == [0, 1, 3, 2, 4, 5]; ComplexStep6(); }
    else if i == 7 { assert order[..7] == [0, 1, 3, 2, 4, 5, 6]; ComplexStep7(); }
    else if i == 8 { assert order[..8] == [0, 1, 3, 2, 4, 5, 6, 7]; ComplexStep8(); }
    else if i == 9 { assert order[..9] == [0, 1, 3, 2, 4, 5, 6, 7, 9]; ComplexStep9(); }
  }

  lemma ComplexPermutation()
    ensures IsPermutation(ComplexOrder(), ComplexNodes())
  {
    var order := ComplexOrder();
    forall i, j | 0 <= i < j < |order| ensures order[i] != order[j] {
    }
    assert Elems(order) == ComplexNodes();
  }

  lemma ComplexGreedy()
    ensures IsGreedyTopological(ComplexOrder(), ComplexNodes(), ComplexEdges(), Identity)
  {
    ComplexPermutation();
    forall i | 0 <= i < |ComplexOrder()| ensures GreedyAt(ComplexOrder(), i, ComplexNodes(), ComplexEdges(), Identity) {
      ComplexGreedyAt(i);
    }
  }

  /** The complex test: the sort is exactly `[0, 1, 3, 2, 4, 5, 6, 7, 9, 8]`. */
  method SortComplex() returns (r: Result<seq<int>, SortError>)
    ensures r == Ok([0, 1, 3, 2, 4, 5, 6, 7, 9, 8])
  {
    hide ComplexNodes, ComplexEdges;
    var nodes, edges := ComplexNodes(), ComplexEdges();
    ComplexEdgesWithin();
    ComplexGreedy();
    GreedyIsTopological(ComplexOrder(), nodes, edges, Identity);
    TopologicalIsAcyclic(nodes, edges, ComplexOrder());
    r := SortStackTopological(nodes, edges, Identity);
    GreedyOrderUnique(r.value, ComplexOrder(), nodes, edges, Identity);
  }
}
