/**
 * The perturbation operators of the diffusion sweep. Each takes a copy of the
 * graph (a `Graph` is a value, so the caller's graph is never touched), rewrites
 * the copy edge by edge and returns it with its Laplacian.
 *
 * Two specification functions say what the rewriting loops produce:
 * `ReduceWeights` (every edge touching a target gets the reduced weight; the
 * weight is replaced, not scaled) and `Isolate` (every edge touching a target
 * is gone).
 */
module Perturbation {
  import opened Wrappers
  import opened Graphs
  import opened Laplacians
  import opened Components
  import opened NodeNames
  import opened Text

  predicate Touches(e: Edge, targets: set<Node>)
  {
    e.0 in targets || e.1 in targets
  }

  /** The graph whose edges touching `targets` all weigh `w`. */
  function ReduceWeights(g: Graph, targets: set<Node>, w: real): (h: Graph)
    ensures h.nodes == g.nodes && h.adj.Keys == g.adj.Keys
  {
    Graph(g.nodes, map e | e in g.adj :: if Touches(e, targets) then w else g.adj[e])
  }

  /** The graph without the edges touching `targets`. */
  function Isolate(g: Graph, targets: set<Node>): (h: Graph)
    ensures h.nodes == g.nodes && h.adj.Keys <= g.adj.Keys
  {
    Graph(g.nodes, map e | e in g.adj && !Touches(e, targets) :: g.adj[e])
  }

  /**
   * Knocking down: every edge touching a target now weighs exactly `w`, every
   * other edge keeps its weight, no node or edge appears or disappears, and the
   * result is again an undirected graph.
   */
  lemma ReduceWeightsEffect(g: Graph, targets: set<Node>, w: real)
    requires Valid(g)
    ensures var h := ReduceWeights(g, targets, w);
      && Valid(h)
      && h.nodes == g.nodes
      && h.adj.Keys == g.adj.Keys
      && (forall u, v :: (u, v) in g.adj && (u in targets || v in targets) ==> h.adj[(u, v)] == w)
      && (forall u, v :: (u, v) in g.adj && u !in targets && v !in targets ==> h.adj[(u, v)] == g.adj[(u, v)])
  {
  }

  /** Knocking down the same targets twice is knocking them down once. */
  lemma ReduceWeightsIdempotent(g: Graph, targets: set<Node>, w: real)
    ensures ReduceWeights(ReduceWeights(g, targets, w), targets, w) == ReduceWeights(g, targets, w)
  {
  }

  /** Knocking down targets one after another is knocking down all of them. */
  lemma ReduceWeightsCompose(g: Graph, a: set<Node>, b: set<Node>, w: real)
    ensures ReduceWeights(ReduceWeights(g, a, w), b, w) == ReduceWeights(g, a + b, w)
  {
  }

  /** A name that is not a node touches no edge, so knocking it down changes nothing. */
  lemma ReduceAbsent(g: Graph, targets: set<Node>, x: Node, w: real)
    requires Valid(g) && x !in g.nodes
    ensures ReduceWeights(g, targets + {x}, w) == ReduceWeights(g, targets, w)
  {
  }

  /** Knocking down nothing leaves the graph as it was. */
  lemma ReduceNothing(g: Graph, w: real)
    ensures ReduceWeights(g, {}, w) == g
  {
  }

  /**
   * Knocking out: every node stays, no edge touches a target any more (each
   * target has degree zero), every edge not touching a target survives with its
   * weight, and the result is again an undirected graph.
   */
  lemma IsolateEffect(g: Graph, targets: set<Node>)
    requires Valid(g)
    ensures var h := Isolate(g, targets);
      && Valid(h)
      && h.nodes == g.nodes
      && (forall x :: x in targets ==> Degree(h, x) == 0)
      && (forall u, v :: (u, v) in g.adj && u !in targets && v !in targets ==>
            (u, v) in h.adj && h.adj[(u, v)] == g.adj[(u, v)])
  {
    var h := Isolate(g, targets);
    forall x | x in targets ensures Degree(h, x) == 0 {
      DegreeZeroIffIsolated(h, x);
    }
  }

  /** `m` with every edge between `u` and a node of `vs` set to `w`, in both orientations. */
  function ReducedToward(m: Graph, u: Node, vs: seq<Node>, w: real): (h: Graph)
    ensures h.nodes == m.nodes && h.adj.Keys == m.adj.Keys
  {
    Graph(m.nodes, map e | e in m.adj ::
      if (e.0 == u && e.1 in vs) || (e.1 == u && e.0 in vs) then w else m.adj[e])
  }

  /** Reducing toward no neighbour changes nothing. */
  lemma ReducedTowardNone(m: Graph, u: Node, w: real)
    ensures ReducedToward(m, u, [], w) == m
  {
    assert ReducedToward(m, u, [], w).adj == m.adj;
  }

  /** One more neighbour: the edge to it, in both orientations, is set as well. */
  lemma ReducedTowardSnoc(m: Graph, u: Node, vs: seq<Node>, v: Node, w: real)
    requires (u, v) in m.adj && (v, u) in m.adj
    ensures var h := ReducedToward(m, u, vs, w);
      ReducedToward(m, u, vs + [v], w) == Graph(h.nodes, h.adj[(u, v) := w][(v, u) := w])
  {
    var h := ReducedToward(m, u, vs, w);
    assert forall x :: x in vs + [v] <==> x in vs || x == v;
    assert ReducedToward(m, u, vs + [v], w).adj == h.adj[(u, v) := w][(v, u) := w];
  }

  /** Setting the two orientations of the edge to the next neighbour in the loop. */
  lemma ReducedTowardStep(g: Graph, m: Graph, u: Node, nbrs: seq<Node>, i: nat, w: real)
    requires Valid(g) && m.adj.Keys == g.adj.Keys
    requires nbrs == Neighbors(g, u) && i < |nbrs|
    ensures var h, v := ReducedToward(m, u, nbrs[..i], w), nbrs[i];
      ReducedToward(m, u, nbrs[..i + 1], w) == Graph(h.nodes, h.adj[(u, v) := w][(v, u) := w])
  {
    var v := nbrs[i];
    assert (u, v) in g.adj;
    assert (v, u) in g.adj;
    assert nbrs[..i + 1] == nbrs[..i] + [v];
    ReducedTowardSnoc(m, u, nbrs[..i], v, w);
  }

  /** Reducing toward all of `u`'s neighbours is reducing the weights around `u`. */
  lemma ReducedTowardNeighbors(g: Graph, m: Graph, u: Node, w: real)
    requires Valid(g) && m.adj.Keys == g.adj.Keys
    ensures ReducedToward(m, u, Neighbors(g, u), w) == ReduceWeights(m, {u}, w)
  {
    var nbrs := Neighbors(g, u);
    forall e | e in m.adj
      ensures ((e.0 == u && e.1 in nbrs) || (e.1 == u && e.0 in nbrs)) == Touches(e, {u})
    {
      assert e in g.adj;
    }
  }

  /**
   * `modified_graph[u][v]['weight'] = w; modified_graph[v][u]['weight'] = w` for
   * every neighbour `v` of `u` in the original graph `g`; `m` is the copy being
   * rewritten and has the edges of `g`.
   */
  method ReduceIncident(g: Graph, m: Graph, u: Node, w: real) returns (m': Graph)
    requires Valid(g) && u in g.nodes
    requires m.nodes == g.nodes && m.adj.Keys == g.adj.Keys
    ensures m' == ReduceWeights(m, {u}, w)
  {
    var nbrs := Neighbors(g, u);
    m' := m;
    var i := 0;
    ReducedTowardNone(m, u, w);
    assert nbrs[..0] == [];
    while i < |nbrs|
      invariant 0 <= i <= |nbrs|
      invariant m' == ReducedToward(m, u, nbrs[..i], w)
    {
      var v := nbrs[i];
      ReducedTowardStep(g, m, u, nbrs, i, w);
      m' := Graph(m'.nodes, m'.adj[(u, v) := w][(v, u) := w]);
      i := i + 1;
    }
    assert nbrs[..i] == nbrs;
    ReducedTowardNeighbors(g, m, u, w);
  }

  /** Edges of `es`, in both orientations. */
  function Unoriented(es: seq<Edge>): (r: set<Edge>)
    ensures forall u, v :: (u, v) in r <==> (u, v) in es || (v, u) in es
  {
    (set e | e in es) + (set e | e in es :: (e.1, e.0))
  }

  /** `G.edges(nbunch)`: an edge `(n, v)` for every listed node `n` and neighbour `v`. */
  function IncidentEdges(g: Graph, bunch: seq<Node>): (r: seq<Edge>)
    ensures forall e :: e in r <==> e.0 in bunch && e.1 in g.nodes && e in g.adj
  {
    if |bunch| == 0 then []
    else
      var n := bunch[0];
      var nbrs := Neighbors(g, n);
      var here := seq(|nbrs|, k requires 0 <= k < |nbrs| => (n, nbrs[k]));
      assert forall e: Edge :: e in here <==> e.0 == n && e.1 in nbrs by {
        forall e: Edge | e.0 == n && e.1 in nbrs ensures e in here {
          var k :| 0 <= k < |nbrs| && nbrs[k] == e.1;
          assert here[k] == e;
        }
      }
      here + IncidentEdges(g, bunch[1..])
  }

  /**
   * `remove_edges_from(es)`: each listed pair disappears in both orientations; a
   * pair that is already gone is skipped.
   */
  method RemoveEdges(m: Graph, es: seq<Edge>) returns (m': Graph)
    ensures m' == Graph(m.nodes, m.adj - Unoriented(es))
  {
    m' := m;
    var i := 0;
    while i < |es|
      invariant 0 <= i <= |es|
      invariant m' == Graph(m.nodes, m.adj - Unoriented(es[..i]))
    {
      var (u, v) := es[i];
      assert es[..i + 1] == es[..i] + [(u, v)];
      assert Unoriented(es[..i + 1]) == Unoriented(es[..i]) + {(u, v), (v, u)};
      m' := Graph(m'.nodes, m'.adj - {(u, v), (v, u)});
      i := i + 1;
    }
    assert es[..i] == es;
  }

  /** Removing the edges listed by `G.edges(bunch)` isolates the listed nodes. */
  lemma RemovingIncidentEdgesIsolates(g: Graph, bunch: seq<Node>)
    requires Valid(g)
    ensures Graph(g.nodes, g.adj - Unoriented(IncidentEdges(g, bunch))) == Isolate(g, Elems(bunch))
  {
  }

  /** Knocking out a name that is not a node changes nothing. */
  lemma IsolateAbsent(g: Graph, x: Node)
    requires Valid(g) && x !in g.nodes
    ensures Isolate(g, {x}) == g
  {
  }

  /**
   * `if node in G:` followed by the neighbour loop: given the copy with `done`
   * knocked down, knocks down `x` as well, which changes nothing when `x` is not
   * a node.
   */
  method ReduceIfPresent(g: Graph, h: Graph, ghost done: set<Node>, x: Node, w: real) returns (h': Graph)
    requires Valid(g) && h == ReduceWeights(g, done, w)
    ensures h' == ReduceWeights(g, done + {x}, w)
  {
    ReduceWeightsCompose(g, done, {x}, w);
    if x in g.nodes {
      h' := ReduceIncident(g, h, x, w);
    } else {
      ReduceAbsent(g, done, x, w);
      h' := h;
    }
  }

  /** Knocks down every listed name that is a node, in list order. */
  method ReducePresent(g: Graph, targets: seq<Node>, w: real) returns (h: Graph)
    requires Valid(g)
    ensures h == ReduceWeights(g, Elems(targets), w)
  {
    ReduceNothing(g, w);
    h := g;
    var i := 0;
    while i < |targets|
      invariant 0 <= i <= |targets|
      invariant h == ReduceWeights(g, Elems(targets[..i]), w)
    {
      assert Elems(targets[..i + 1]) == Elems(targets[..i]) + {targets[i]};
      h := ReduceIfPresent(g, h, Elems(targets[..i]), targets[i], w);
      i := i + 1;
    }
    assert targets[..i] == targets;
  }

  datatype PerturbError = MissingNode(name: Node)

  /**
   * `knockdown_node_both_layers`: the edges of `X.p` and then of `X.t` get weight
   * `w`; looking up a layer node that is not in the graph fails, the protein
   * layer first.
   */
  method KnockdownNodeBothLayers(g: Graph, base: string, w: real) returns (r: Result<(Graph, Matrix), PerturbError>)
    requires Valid(g)
    ensures var p, t := LayerNode(base, ProteinSuffix), LayerNode(base, TranscriptSuffix);
      && (p !in g.nodes ==> r == Failure(MissingNode(p)))
      && (p in g.nodes && t !in g.nodes ==> r == Failure(MissingNode(t)))
      && (p in g.nodes && t in g.nodes ==>
            r == Success((ReduceWeights(g, {p, t}, w), Laplacian(ReduceWeights(g, {p, t}, w)))))
  {
    var pair := [LayerNode(base, ProteinSuffix), LayerNode(base, TranscriptSuffix)];
    ReduceNothing(g, w);
    var h := g;
    var j := 0;
    while j < 2
      invariant 0 <= j <= 2
      invariant j > 0 ==> pair[0] in g.nodes
      invariant j > 1 ==> pair[1] in g.nodes
      invariant h == ReduceWeights(g, Elems(pair[..j]), w)
    {
      if pair[j] !in g.nodes {
        assert j == 0 || j == 1;
        return Failure(MissingNode(pair[j]));
      }
      assert Elems(pair[..j + 1]) == Elems(pair[..j]) + {pair[j]};
      ReduceWeightsCompose(g, Elems(pair[..j]), {pair[j]}, w);
      h := ReduceIncident(g, h, pair[j], w);
      j := j + 1;
    }
    assert Elems(pair[..j]) == {pair[0], pair[1]};
    r := Success((h, Laplacian(h)));
  }

  /** `[f"{b}{suffix}" for b in bases]`. */
  function Suffixed(bases: seq<string>, suffix: string): (r: seq<Node>)
    ensures |r| == |bases| && forall k :: 0 <= k < |bases| ==> r[k] == LayerNode(bases[k], suffix)
  {
    seq(|bases|, k requires 0 <= k < |bases| => LayerNode(bases[k], suffix))
  }

  /** The node list of a pathway: every gene's protein node, then every gene's transcript node. */
  function PathwayTargets(genes: seq<string>): (r: seq<Node>)
    ensures |r| == 2 * |genes|
    ensures forall b :: b in genes ==> LayerNode(b, ProteinSuffix) in r && LayerNode(b, TranscriptSuffix) in r
  {
    var ps, ts := Suffixed(genes, ProteinSuffix), Suffixed(genes, TranscriptSuffix);
    assert forall b :: b in genes ==> LayerNode(b, ProteinSuffix) in ps && LayerNode(b, TranscriptSuffix) in ts by {
      forall b | b in genes
        ensures LayerNode(b, ProteinSuffix) in ps && LayerNode(b, TranscriptSuffix) in ts
      {
        var k :| 0 <= k < |genes| && genes[k] == b;
        assert ps[k] == LayerNode(b, ProteinSuffix) && ts[k] == LayerNode(b, TranscriptSuffix);
      }
    }
    ps + ts
  }

  lemma SuffixedSnoc(bases: seq<string>, b: string, suffix: string)
    ensures Suffixed(bases + [b], suffix) == Suffixed(bases, suffix) + [LayerNode(b, suffix)]
  {
  }

  lemma ElemsConcat(a: seq<Node>, b: seq<Node>)
    ensures Elems(a + b) == Elems(a) + Elems(b)
  {
  }

  lemma PathwayTargetsSnoc(genes: seq<string>, b: string)
    ensures Elems(PathwayTargets(genes + [b]))
         == Elems(PathwayTargets(genes)) + {LayerNode(b, ProteinSuffix), LayerNode(b, TranscriptSuffix)}
  {
    var p, t := LayerNode(b, ProteinSuffix), LayerNode(b, TranscriptSuffix);
    var ps, ts := Suffixed(genes, ProteinSuffix), Suffixed(genes, TranscriptSuffix);
    SuffixedSnoc(genes, b, ProteinSuffix);
    SuffixedSnoc(genes, b, TranscriptSuffix);
    assert PathwayTargets(genes + [b]) == (ps + [p]) + (ts + [t]);
    ElemsConcat(ps + [p], ts + [t]);
    ElemsConcat(ps, [p]);
    ElemsConcat(ts, [t]);
    ElemsConcat(ps, ts);
  }

  /**
   * `knockdown_pathway_nodes` on the pathway's gene list: for each gene, the
   * edges of its protein node and then of its transcript node, where present, get
   * weight `w`. Reports the Laplacian, the connected components of the subgraph
   * induced on the pathway's nodes (their number and sizes) and the length of the
   * node list.
   */
  method KnockdownPathwayNodes(g: Graph, genes: seq<string>, w: real)
    returns (h: Graph, l: Matrix, count: nat, sizes: seq<nat>, numTargets: nat)
    requires Valid(g)
    ensures h == ReduceWeights(g, Elems(PathwayTargets(genes)), w)
    ensures l == Laplacian(h)
    ensures exists comps :: IsComponentPartition(h, Present(h, PathwayTargets(genes)), comps)
                            && count == |comps| && sizes == Lengths(comps)
    ensures numTargets == 2 * |genes|
  {
    ReduceNothing(g, w);
    h := g;
    var i := 0;
    while i < |genes|
      invariant 0 <= i <= |genes|
      invariant h == ReduceWeights(g, Elems(PathwayTargets(genes[..i])), w)
    {
      ghost var done := Elems(PathwayTargets(genes[..i]));
      var pair := [LayerNode(genes[i], ProteinSuffix), LayerNode(genes[i], TranscriptSuffix)];
      var j := 0;
      while j < 2
        invariant 0 <= j <= 2
        invariant h == ReduceWeights(g, done + Elems(pair[..j]), w)
      {
        assert done + Elems(pair[..j + 1]) == done + Elems(pair[..j]) + {pair[j]};
        h := ReduceIfPresent(g, h, done + Elems(pair[..j]), pair[j], w);
        j := j + 1;
      }
      PathwayTargetsSnoc(genes[..i], genes[i]);
      assert genes[..i + 1] == genes[..i] + [genes[i]];
      assert Elems(pair[..j]) == {pair[0], pair[1]};
      i := i + 1;
    }
    assert genes[..i] == genes;
    l := Laplacian(h);
    var targets := PathwayTargets(genes);
    ReduceWeightsEffect(g, Elems(targets), w);
    var comps := ConnectedComponents(h, targets);
    count := |comps|;
    sizes := Lengths(comps);
    numTargets := |targets|;
  }

  /**
   * `knockdown_random_nodes`: the edges of every listed node that is in the graph
   * get weight `w` (absent names are skipped). Reports the connected components of
   * the subgraph induced on the list, the Laplacian and the length of the list.
   */
  method KnockdownRandomNodes(g: Graph, nodeList: seq<Node>, w: real)
    returns (h: Graph, l: Matrix, count: nat, sizes: seq<nat>, numTargets: nat)
    requires Valid(g)
    ensures h == ReduceWeights(g, Elems(nodeList), w)
    ensures l == Laplacian(h)
    ensures exists comps :: IsComponentPartition(h, Present(h, nodeList), comps)
                            && count == |comps| && sizes == Lengths(comps)
    ensures numTargets == |nodeList|
  {
    h := ReducePresent(g, nodeList, w);
    ReduceWeightsEffect(g, Elems(nodeList), w);
    var comps := ConnectedComponents(h, nodeList);
    count := |comps|;
    sizes := Lengths(comps);
    l := Laplacian(h);
    numTargets := |nodeList|;
  }

  /**
   * The component diagnostics do not depend on the reduced weight: knocking down
   * the same targets with two different weights gives the same components, as
   * many of them, with the same total size, bounded by the length of the list.
   */
  lemma ComponentsIgnoreReducedWeight(g: Graph, listed: seq<Node>, w1: real, w2: real,
                                      p1: seq<seq<Node>>, p2: seq<seq<Node>>)
    requires Valid(g)
    requires IsComponentPartition(ReduceWeights(g, Elems(listed), w1), Present(g, listed), p1)
    requires IsComponentPartition(ReduceWeights(g, Elems(listed), w2), Present(g, listed), p2)
    ensures ComponentSets(p1) == ComponentSets(p2) && |p1| == |p2|
    ensures SumNat(Lengths(p1)) == SumNat(Lengths(p2)) <= |listed|
  {
    var h1, h2 := ReduceWeights(g, Elems(listed), w1), ReduceWeights(g, Elems(listed), w2);
    ReduceWeightsEffect(g, Elems(listed), w1);
    ReduceWeightsEffect(g, Elems(listed), w2);
    PartitionIgnoresWeights(h2, h1, Present(g, listed), p2);
    PartitionUnique(h1, Present(g, listed), p1, p2);
    ComponentSizesBound(h1, listed, p1);
    ComponentSizesBound(h2, listed, p2);
  }

  /** With no genes there is nothing to knock down and nothing to report. */
  lemma EmptyPathway(g: Graph, w: real, comps: seq<seq<Node>>)
    requires IsComponentPartition(ReduceWeights(g, Elems(PathwayTargets([])), w), Present(g, PathwayTargets([])), comps)
    ensures ReduceWeights(g, Elems(PathwayTargets([])), w) == g
    ensures comps == [] && Lengths(comps) == []
  {
    assert PathwayTargets([]) == [];
    assert Elems([]) == {};
    ReduceNothing(g, w);
    assert Present(g, []) == {};
    ComponentSizesBound(g, [], comps);
  }

  /**
   * networkx `nbunch_iter(x)` as `G.edges(x)` uses it: `[x]` when `x` is a node;
   * otherwise the string is iterated as a container, giving each of its
   * characters that is itself a node.
   */
  function EdgeBunch(g: Graph, x: string): (b: seq<Node>)
    ensures x in g.nodes ==> b == [x]
    ensures x !in g.nodes ==> forall n :: n in b <==> n in g.nodes && |n| == 1 && n[0] in x
  {
    if x in g.nodes then [x] else CharNodes(g, x)
  }

  function CharNodes(g: Graph, s: string): (b: seq<Node>)
    ensures forall n :: n in b <==> n in g.nodes && |n| == 1 && n[0] in s
  {
    if |s| == 0 then []
    else
      var rest := CharNodes(g, s[1..]);
      assert forall c :: c in s <==> c == s[0] || c in s[1..];
      assert forall n: string :: |n| == 1 ==> n == [n[0]];
      if [s[0]] in g.nodes then [[s[0]]] + rest else rest
  }

  /**
   * `knockout_node` as written: removes the edges `G.edges(x)` lists, which for a
   * string that is not a node are the edges of its one-character nodes.
   */
  method KnockoutNodeAsWritten(g: Graph, x: string) returns (h: Graph, l: Matrix)
    requires Valid(g)
    ensures h == Isolate(g, Elems(EdgeBunch(g, x)))
    ensures l == Laplacian(h)
  {
    var bunch := EdgeBunch(g, x);
    h := RemoveEdges(g, IncidentEdges(g, bunch));
    RemovingIncidentEdgesIsolates(g, bunch);
    l := Laplacian(h);
  }

  /** `knockout_node` as intended: removes exactly the edges of `x`, none when `x` is not a node. */
  method KnockoutNode(g: Graph, x: Node) returns (h: Graph, l: Matrix)
    requires Valid(g)
    ensures h == Isolate(g, {x})
    ensures x !in g.nodes ==> h == g
    ensures l == Laplacian(h)
  {
    var bunch := if x in g.nodes then [x] else [];
    h := RemoveEdges(g, IncidentEdges(g, bunch));
    RemovingIncidentEdgesIsolates(g, bunch);
    if x !in g.nodes {
      assert Elems(bunch) == {};
      IsolateAbsent(g, x);
      assert Isolate(g, {}) == g;
    } else {
      assert Elems(bunch) == {x};
    }
    l := Laplacian(h);
  }

  /**
   * Knocking out the name "ab" in the graph with the single edge a-b: the
   * as-written operator removes that edge, the intended one leaves the graph alone.
   */
  lemma KnockoutStrayName()
    ensures var g := StrayExample();
      && Valid(g)
      && Isolate(g, Elems(EdgeBunch(g, "ab"))).adj == map[]
      && Isolate(g, {"ab"}) == g
  {
    StrayExampleValid();
    StrayAsWritten();
    StrayIntended();
  }

  /** Nodes `a` and `b` joined by one edge. */
  function StrayExample(): Graph
  {
    Graph(["a", "b"], map[("a", "b") := 1.0, ("b", "a") := 1.0])
  }

  lemma StrayExampleValid()
    ensures Valid(StrayExample())
  {
  }

  lemma StrayAsWritten()
    ensures Isolate(StrayExample(), Elems(EdgeBunch(StrayExample(), "ab"))).adj == map[]
  {
    var g := StrayExample();
    assert "a" in Elems(EdgeBunch(g, "ab")) by {
      assert "a" in g.nodes && |"a"| == 1 && "a"[0] in "ab";
    }
  }

  lemma StrayIntended()
    ensures Isolate(StrayExample(), {"ab"}) == StrayExample()
  {
    var g := StrayExample();
    assert "ab" !in g.nodes;
    assert Isolate(g, {"ab"}).adj == g.adj;
  }

  /** A row of the pathway enrichment table: its description and its `'|'`-separated genes. */
  datatype PathwayRow = PathwayRow(description: string, genes: string)

  /**
   * The gene list of a pathway: the `'|'`-pieces of the gene field of every row
   * with that description, in row order. It is empty exactly when no row has the
   * description (a matching row contributes at least one piece), and no gene
   * contains the separator.
   */
  function PathwayGenes(table: seq<PathwayRow>, description: string): (genes: seq<string>)
    ensures genes == [] <==> forall k :: 0 <= k < |table| ==> table[k].description != description
    ensures forall k :: 0 <= k < |genes| ==> '|' !in genes[k]
  {
    if |table| == 0 then []
    else
      var n := |table| - 1;
      var front := PathwayGenes(table[..n], description);
      assert forall k :: 0 <= k < n ==> table[..n][k] == table[k];
      if table[n].description == description then front + Split(table[n].genes, '|') else front
  }

  /** The row loop that extends the gene list. */
  method GatherPathwayGenes(table: seq<PathwayRow>, description: string) returns (genes: seq<string>)
    ensures genes == PathwayGenes(table, description)
  {
    genes := [];
    var i := 0;
    while i < |table|
      invariant 0 <= i <= |table|
      invariant genes == PathwayGenes(table[..i], description)
    {
      if table[i].description == description {
        genes := genes + Split(table[i].genes, '|');
      }
      assert table[..i + 1][..i] == table[..i];
      i := i + 1;
    }
    assert table[..i] == table;
  }

  /** The gene field of a matching row is recovered by joining its pieces back. */
  lemma PathwayGenesOfOneRow(row: PathwayRow)
    ensures Join(PathwayGenes([row], row.description), '|') == row.genes
  {
    assert [row][..0] == [];
    var parts := Split(row.genes, '|');
    assert PathwayGenes([row], row.description) == [] + parts;
    assert [] + parts == parts;
  }
}
