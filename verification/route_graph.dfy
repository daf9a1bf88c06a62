/** The traceroute route graph: an undirected graph over hop labels, built as a
    chain that starts at the synthetic node "Start" and visits the hops in the
    order they were reported. Labels are the node identities, so a label that
    recurs is one node; an edge is the unordered pair of its ends. */
module RouteGraph {
  import opened Basics

  const Start: string := "Start"

  /** The undirected edge between `a` and `b`; a self-loop is a one-element set. */
  function Edge(a: string, b: string): set<string> {
    {a, b}
  }

  datatype Graph = Graph(nodes: set<string>, edges: set<set<string>>)

  /** Every edge joins nodes of the graph. */
  ghost predicate WellFormed(g: Graph) {
    forall e :: e in g.edges ==> e <= g.nodes
  }

  /** Adding a hop node and then the edge to it from the previous node: the edge
      brings in both of its ends, so a graph whose edges join its nodes keeps
      that shape; nothing is removed, and at most one edge is new. */
  function AddHop(g: Graph, prev: string, hop: string): (h: Graph)
    ensures WellFormed(g) ==> WellFormed(h)
    ensures g.nodes <= h.nodes && g.edges <= h.edges
    ensures prev in h.nodes && hop in h.nodes && Edge(prev, hop) in h.edges
    ensures h.nodes - g.nodes <= {prev, hop}
    ensures h.edges - g.edges <= {Edge(prev, hop)} && |h.edges| <= |g.edges| + 1
  {
    Graph(g.nodes + {prev, hop}, g.edges + {Edge(prev, hop)})
  }

  /** The sequence of nodes the chain visits. */
  function Walk(labels: seq<string>): seq<string> {
    [Start] + labels
  }

  /** The edge a walk takes at step `k`. */
  function StepEdge(w: seq<string>, k: nat): set<string>
    requires k + 1 < |w|
  {
    Edge(w[k], w[k + 1])
  }

  /** The edges between the first `n + 1` nodes of a walk, consecutive ones joined. */
  function ChainEdges(w: seq<string>, n: nat): set<set<string>>
    requires n < |w|
  {
    set k | 0 <= k < n :: StepEdge(w, k)
  }

  lemma ChainEdgesStep(w: seq<string>, n: nat)
    requires n + 1 < |w|
    ensures ChainEdges(w, n + 1) == ChainEdges(w, n) + {Edge(w[n], w[n + 1])}
  {
    var lhs := ChainEdges(w, n + 1);
    var rhs := ChainEdges(w, n) + {Edge(w[n], w[n + 1])};
    forall e | e in lhs ensures e in rhs {
      var k :| 0 <= k < n + 1 && e == StepEdge(w, k);
      if k < n {
        assert e in ChainEdges(w, n);
      }
    }
    forall e | e in rhs ensures e in lhs {
      if e in ChainEdges(w, n) {
        var k :| 0 <= k < n && e == StepEdge(w, k);
        assert e == StepEdge(w, k);
      } else {
        assert e == StepEdge(w, n);
      }
    }
  }

  /** Extending a walk does not change the edges among its earlier nodes. */
  lemma ChainEdgesExtend(w: seq<string>, x: string, n: nat)
    requires n < |w|
    ensures ChainEdges(w + [x], n) == ChainEdges(w, n)
  {
    var w' := w + [x];
    forall k | 0 <= k < n ensures StepEdge(w', k) == StepEdge(w, k) {
      assert w'[k] == w[k] && w'[k + 1] == w[k + 1];
    }
  }

  /** A chain over `n` steps has at most `n` distinct edges. */
  lemma {:induction false} ChainEdgesBound(w: seq<string>, n: nat)
    requires n < |w|
    ensures |ChainEdges(w, n)| <= n
  {
    if n > 0 {
      ChainEdgesStep(w, n - 1);
      ChainEdgesBound(w, n - 1);
    } else {
      assert ChainEdges(w, 0) == {};
    }
  }

  /** The route graph of a hop-label sequence, stated in closed form: the node
      set is "Start" with every label (repeats collapse), and each hop is joined
      to the node visited just before it. */
  function ChainGraph(labels: seq<string>): (g: Graph)
    ensures Start in g.nodes
    ensures forall l :: l in labels ==> l in g.nodes
    ensures forall n :: n in g.nodes ==> n == Start || n in labels
    ensures |g.edges| <= |labels|
  {
    ChainEdgesBound(Walk(labels), |labels|);
    Graph({Start} + (set l | l in labels), ChainEdges(Walk(labels), |labels|))
  }

  /** Each accepted hop adds its label as a node and the edge from the previous
      node, and nothing else. */
  lemma ChainStep(labels: seq<string>, x: string)
    ensures ChainGraph(labels + [x]) == AddHop(ChainGraph(labels), Last(Walk(labels)), x)
  {
    var w := Walk(labels);
    var n := |labels|;
    assert Walk(labels + [x]) == w + [x];
    ChainEdgesStep(w + [x], n);
    ChainEdgesExtend(w, x, n);
    assert (w + [x])[n] == Last(w);
    assert Last(w) in ChainGraph(labels).nodes by {
      if n > 0 {
        assert Last(w) == labels[n - 1];
      }
    }
    var g := ChainGraph(labels);
    assert ChainGraph(labels + [x]).nodes == g.nodes + {Last(w), x};
    assert AddHop(g, Last(w), x) == Graph(g.nodes + {Last(w), x}, g.edges + {Edge(Last(w), x)});
  }

  /** Every edge of the route graph joins two of its nodes. */
  lemma ChainWellFormed(labels: seq<string>)
    ensures WellFormed(ChainGraph(labels))
  {
    var g := ChainGraph(labels);
    var w := Walk(labels);
    forall e | e in g.edges ensures e <= g.nodes {
      var k :| 0 <= k < |labels| && e == StepEdge(w, k);
      assert w[k + 1] == labels[k];
      if k > 0 {
        assert w[k] == labels[k - 1];
      }
    }
  }

  /** `p` is a path of `g` starting at "Start". */
  ghost predicate IsPathFromStart(g: Graph, p: seq<string>) {
    && |p| >= 1
    && p[0] == Start
    && forall k :: 0 <= k < |p| - 1 ==> Edge(p[k], p[k + 1]) in g.edges
  }

  ghost predicate Reachable(g: Graph, n: string) {
    exists p :: IsPathFromStart(g, p) && Last(p) == n
  }

  /** Every node of the route graph is reachable from "Start": the graph is
      connected. */
  lemma ChainConnected(labels: seq<string>)
    ensures forall n :: n in ChainGraph(labels).nodes ==> Reachable(ChainGraph(labels), n)
  {
    var g := ChainGraph(labels);
    var w := Walk(labels);
    forall n | n in g.nodes ensures Reachable(g, n) {
      var j: nat := 0;
      if n != Start {
        var k :| 0 <= k < |labels| && labels[k] == n;
        j := k + 1;
      }
      assert w[j] == n;
      var p := w[..j + 1];
      forall k | 0 <= k < |p| - 1 ensures Edge(p[k], p[k + 1]) in g.edges {
        assert p[k] == w[k] && p[k + 1] == w[k + 1];
        assert StepEdge(w, k) in ChainEdges(w, |labels|);
      }
      assert IsPathFromStart(g, p) && Last(p) == n;
    }
  }

  /** No element occurs twice. */
  ghost predicate Distinct(w: seq<string>) {
    forall i, j :: 0 <= i < j < |w| ==> w[i] != w[j]
  }

  /** A hop to a node not yet in the graph, from one that is, adds exactly one
      node and one edge. */
  lemma AddNewHopSizes(g: Graph, prev: string, x: string)
    requires WellFormed(g) && prev in g.nodes && x !in g.nodes
    ensures |AddHop(g, prev, x).nodes| == |g.nodes| + 1
    ensures |AddHop(g, prev, x).edges| == |g.edges| + 1
  {
    assert x in Edge(prev, x);
    assert Edge(prev, x) !in g.edges;
    assert g.nodes + {prev, x} == g.nodes + {x};
  }

  /** The last node of a walk with no repeats is not among the nodes before it. */
  lemma FreshLastHop(init: seq<string>, x: string)
    requires Distinct(Walk(init + [x]))
    ensures Distinct(Walk(init))
    ensures x !in ChainGraph(init).nodes
    ensures Last(Walk(init)) in ChainGraph(init).nodes
  {
    var w := Walk(init + [x]);
    assert Walk(init) == w[..|w| - 1];
    assert w[|init| + 1] == x;
    assert x != Start by {
      assert w[0] == Start;
    }
    forall k | 0 <= k < |init| ensures init[k] != x {
      assert w[k + 1] == init[k];
    }
    if |init| > 0 {
      assert Last(Walk(init)) == init[|init| - 1];
    }
  }

  /** When every hop is a different node, the route graph is a simple path with
      one node more than there are hops and one edge per hop. */
  lemma {:induction false} ChainSizesWhenDistinct(labels: seq<string>)
    requires Distinct(Walk(labels))
    ensures |ChainGraph(labels).nodes| == |labels| + 1
    ensures |ChainGraph(labels).edges| == |labels|
    decreases |labels|
  {
    if labels == [] {
      assert ChainGraph(labels).nodes == {Start};
      assert ChainGraph(labels).edges == {};
    } else {
      var init := labels[..|labels| - 1];
      var x := Last(labels);
      assert labels == init + [x];
      FreshLastHop(init, x);
      ChainSizesWhenDistinct(init);
      ChainStep(init, x);
      ChainWellFormed(init);
      AddNewHopSizes(ChainGraph(init), Last(Walk(init)), x);
    }
  }

  /** A hop sequence that revisits a label: A, B, A, C (three different hosts)
      gives the nodes Start, A, B, C and the edges Start-A, A-B and A-C; the
      second hop between A and B is the same undirected edge as the first. */
  lemma RevisitCollapses(a: string, b: string, c: string)
    ensures ChainGraph([a, b, a, c]).nodes == {Start, a, b, c}
    ensures ChainGraph([a, b, a, c]).edges == {Edge(Start, a), Edge(a, b), Edge(a, c)}
  {
    RevisitPrefix(a, b);
    ChainStep([a, b, a], c);
    assert [a, b, a] + [c] == [a, b, a, c];
    assert Last(Walk([a, b, a])) == a;
  }

  lemma RevisitPrefix(a: string, b: string)
    ensures ChainGraph([a, b, a]) == Graph({Start, a, b}, {Edge(Start, a), Edge(a, b)})
  {
    ChainTwo(a, b);
    ChainStep([a, b], a);
    assert [a, b] + [a] == [a, b, a];
    assert Last(Walk([a, b])) == b;
    assert Edge(b, a) == Edge(a, b);
    assert {Start, a, b} + {b, a} == {Start, a, b};
  }

  lemma ChainTwo(a: string, b: string)
    ensures ChainGraph([a, b]) == Graph({Start, a, b}, {Edge(Start, a), Edge(a, b)})
  {
    ChainOne(a);
    ChainStep([a], b);
    assert [a] + [b] == [a, b];
    assert Last(Walk([a])) == a;
  }

  lemma ChainOne(a: string)
    ensures ChainGraph([a]) == Graph({Start, a}, {Edge(Start, a)})
  {
    assert ChainGraph([]) == Graph({Start}, {});
    ChainStep([], a);
    assert [] + [a] == [a];
  }
}
