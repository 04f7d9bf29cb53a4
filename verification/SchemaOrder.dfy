/** The order in which tables are created: every model reachable through foreign keys, referenced ones first. */
module SchemaOrder {

  type Model = int

  /** For each model, the models its foreign keys point to, in field order. */
  type Graph = map<Model, seq<Model>>

  ghost predicate ClosedGraph(g: Graph) {
    forall m, r :: m in g && r in g[m] ==> r in g
  }

  // ----- reachability

  ghost predicate ReachIn(g: Graph, a: Model, b: Model, n: nat)
    decreases n
  {
    if n == 0 then a == b
    else a in g && exists c :: c in g[a] && ReachIn(g, c, b, n - 1)
  }

  ghost predicate Reach(g: Graph, a: Model, b: Model) {
    exists n: nat :: ReachIn(g, a, b, n)
  }

  lemma ReachSelf(g: Graph, a: Model)
    ensures Reach(g, a, a)
  {
    assert ReachIn(g, a, a, 0);
  }

  lemma {:induction false} ReachInExtend(g: Graph, a: Model, b: Model, c: Model, n: nat)
    requires ReachIn(g, a, b, n) && b in g && c in g[b]
    ensures ReachIn(g, a, c, n + 1)
    decreases n
  {
    if n == 0 {
      assert ReachIn(g, c, c, 0);
    } else {
      var d :| d in g[a] && ReachIn(g, d, b, n - 1);
      ReachInExtend(g, d, b, c, n - 1);
    }
  }

  lemma ReachExtend(g: Graph, a: Model, b: Model, c: Model)
    requires Reach(g, a, b) && b in g && c in g[b]
    ensures Reach(g, a, c)
  {
    var n: nat :| ReachIn(g, a, b, n);
    ReachInExtend(g, a, b, c, n);
  }

  /** A set closed under references contains everything reachable from its members. */
  lemma {:induction false} ClosedContainsReachable(g: Graph, s: set<Model>, a: Model, b: Model, n: nat)
    requires forall m, r :: m in s && m in g && r in g[m] ==> r in s
    requires a in s && ReachIn(g, a, b, n)
    ensures b in s
    decreases n
  {
    if n > 0 {
      var c :| c in g[a] && ReachIn(g, c, b, n - 1);
      ClosedContainsReachable(g, s, c, b, n - 1);
    }
  }

  // ----- what the order promises

  predicate Distinct(order: seq<Model>) {
    forall i, j :: 0 <= i < j < |order| ==> order[i] != order[j]
  }

  /** Model r comes before position i, or it lies on a reference cycle with the model there. */
  ghost predicate BeforeOrCyclic(g: Graph, order: seq<Model>, i: int, r: Model)
    requires 0 <= i < |order|
  {
    r == order[i] || r in order[..i] || Reach(g, r, order[i])
  }

  ghost predicate ReferencedFirst(g: Graph, order: seq<Model>) {
    forall i, r :: 0 <= i < |order| && order[i] in g && r in g[order[i]] ==> BeforeOrCyclic(g, order, i, r)
  }

  ghost predicate FromRoots(g: Graph, roots: seq<Model>, m: Model) {
    exists i :: 0 <= i < |roots| && Reach(g, roots[i], m)
  }

  /** The depth-first expansion with its three working collections. */
  class Expansion {
    const graph: Graph
    var ordered: seq<Model>
    var visited: set<Model>
    var visiting: set<Model>

    constructor (graph: Graph)
      ensures this.graph == graph && ordered == [] && visited == {} && visiting == {}
    {
      this.graph := graph;
      ordered, visited, visiting := [], {}, {};
    }

    /** The order lists the visited models once each; finished models refer only to finished or open ones. */
    ghost predicate Valid()
      reads this
    {
      && ClosedGraph(graph)
      && Distinct(ordered)
      && (forall m :: m in ordered <==> m in visited)
      && visited !! visiting
      && visited <= graph.Keys
      && visiting <= graph.Keys
      && (forall m, r :: m in visited && r in graph[m] ==> r in visited || r in visiting)
      && ReferencedFirst(graph, ordered)
    }

    method Visit(m: Model)
      requires Valid() && m in graph
      requires forall v :: v in visiting ==> Reach(graph, v, m)
      modifies this
      ensures Valid() && visiting == old(visiting)
      ensures old(visited) <= visited && (m in visited || m in visiting)
      ensures forall x :: x in visited && x !in old(visited) ==> Reach(graph, m, x)
      decreases graph.Keys - visiting
    {
      if m in visited || m in visiting {
        return;
      }
      ghost var start := visited;
      visiting := visiting + {m};
      ReachSelf(graph, m);
      for i := 0 to |graph[m]|
        invariant Valid() && visiting == old(visiting) + {m}
        invariant start <= visited
        invariant forall r :: r in graph[m][..i] && r != m ==> r in visited || r in visiting
        invariant forall x :: x in visited && x !in start ==> Reach(graph, m, x)
      {
        var related := graph[m][i];
        assert related in graph[m];
        if related != m {
          ghost var before := visited;
          forall v | v in visiting
            ensures Reach(graph, v, related)
          {
            ReachExtend(graph, v, m, related);
          }
          assert graph.Keys - visiting < graph.Keys - old(visiting);
          Visit(related);
          forall x | x in visited && x !in before
            ensures Reach(graph, m, x)
          {
            ReachThrough(graph, m, related, x);
          }
        }
      }
      assert graph[m][..|graph[m]|] == graph[m];
      FinishedKeepsOrder(graph, ordered, visiting, m);
      visiting := visiting - {m};
      visited := visited + {m};
      ordered := ordered + [m];
    }

    method VisitAll(roots: seq<Model>)
      requires Valid() && visited == {} && visiting == {} && forall i :: 0 <= i < |roots| ==> roots[i] in graph
      modifies this
      ensures Valid() && visiting == {}
      ensures forall i :: 0 <= i < |roots| ==> roots[i] in visited
      ensures forall m :: m in visited ==> FromRoots(graph, roots, m)
    {
      for i := 0 to |roots|
        invariant Valid() && visiting == {}
        invariant forall j :: 0 <= j < i ==> roots[j] in visited
        invariant forall m :: m in visited ==> FromRoots(graph, roots, m)
      {
        Visit(roots[i]);
      }
    }
  }

  lemma ReachThrough(g: Graph, a: Model, b: Model, c: Model)
    requires a in g && b in g[a] && Reach(g, b, c)
    ensures Reach(g, a, c)
  {
    var n: nat :| ReachIn(g, b, c, n);
    assert ReachIn(g, a, c, n + 1);
  }

  /** Appending a model whose references are all finished, open above it, or itself keeps the promise. */
  lemma FinishedKeepsOrder(g: Graph, order: seq<Model>, open: set<Model>, m: Model)
    requires ReferencedFirst(g, order) && m in g
    requires forall r :: r in g[m] && r != m ==> r in order || r in open
    requires forall v :: v in open ==> Reach(g, v, m)
    ensures ReferencedFirst(g, order + [m])
  {
    var all := order + [m];
    forall i, r | 0 <= i < |all| && all[i] in g && r in g[all[i]]
      ensures BeforeOrCyclic(g, all, i, r)
    {
      if i < |order| {
        assert BeforeOrCyclic(g, order, i, r);
        assert all[..i] == order[..i];
      } else {
        assert all[..i] == order;
      }
    }
  }

  /** Expansion lists each model reachable from the roots exactly once; a referenced model follows its
      referrer only on a reference cycle. */
  method ExpandModelDependencies(g: Graph, roots: seq<Model>) returns (order: seq<Model>)
    requires ClosedGraph(g) && forall i :: 0 <= i < |roots| ==> roots[i] in g
    ensures Distinct(order)
    ensures forall m :: m in order <==> FromRoots(g, roots, m)
    ensures ReferencedFirst(g, order)
  {
    var e := new Expansion(g);
    e.VisitAll(roots);
    order := e.ordered;
    EverythingReachable(g, roots, e.visited);
  }

  lemma EverythingReachable(g: Graph, roots: seq<Model>, visited: set<Model>)
    requires forall m, r :: m in visited && m in g && r in g[m] ==> r in visited
    requires forall i :: 0 <= i < |roots| ==> roots[i] in visited
    ensures forall m :: FromRoots(g, roots, m) ==> m in visited
  {
    forall m | FromRoots(g, roots, m)
      ensures m in visited
    {
      var i :| 0 <= i < |roots| && Reach(g, roots[i], m);
      var n: nat :| ReachIn(g, roots[i], m, n);
      ClosedContainsReachable(g, visited, roots[i], m, n);
    }
  }

  /** No cycle other than a model referring to itself. */
  ghost predicate Acyclic(g: Graph) {
    forall a, b :: Reach(g, a, b) && Reach(g, b, a) ==> a == b
  }

  /** Without cycles every referenced model strictly precedes its referrers. */
  lemma AcyclicOrderIsTopological(g: Graph, order: seq<Model>, i: int, r: Model)
    requires Acyclic(g) && ReferencedFirst(g, order)
    requires 0 <= i < |order| && order[i] in g && r in g[order[i]] && r != order[i]
    ensures r in order[..i]
  {
    assert BeforeOrCyclic(g, order, i, r);
    ReachSelf(g, r);
    ReachThrough(g, order[i], r, r);
  }

  function Reversed(order: seq<Model>): seq<Model> {
    seq(|order|, i requires 0 <= i < |order| => order[|order| - 1 - i])
  }

  /** The reversed list is a valid drop order: when a table is dropped, no remaining one refers to it. */
  lemma ReverseIsDropOrder(g: Graph, order: seq<Model>, i: int, j: int)
    requires Acyclic(g) && ReferencedFirst(g, order) && Distinct(order)
    requires 0 <= i < j < |order|
    requires Reversed(order)[j] in g
    ensures Reversed(order)[i] !in g[Reversed(order)[j]]
  {
    var n := |order| - 1;
    var dropped, remaining := order[n - i], order[n - j];
    assert dropped != remaining && dropped !in order[..n - j];
    if dropped in g[remaining] {
      AcyclicOrderIsTopological(g, order, n - j, dropped);
    }
  }
}
