/**
 * Building the two-layer (multiplex) graph: layer suffixing, interlayer edges
 * between a gene's protein and transcript nodes and the uniform re-weighting
 * pass.
 */
module Assembly {
  import opened Graphs
  import opened Text
  import opened NodeNames
  import opened Components
  import opened Perturbation

  // ---------------------------------------------------------------------------
  // Re-weighting

  /**
   * The weights after the re-weighting loop: an edge tagged `interlayer` gets
   * `interWeight`, every other edge gets `1.0`; no edge is added or removed.
   */
  function Reweight(g: Graph, inter: set<Edge>, interWeight: real): (h: Graph)
    ensures h.nodes == g.nodes && h.adj.Keys == g.adj.Keys
  {
    Graph(g.nodes, map e | e in g.adj :: if e in inter then interWeight else 1.0)
  }

  /** The interlayer tags are symmetric: an undirected edge is tagged in both orientations. */
  ghost predicate SymmetricTags(inter: set<Edge>)
  {
    forall u, v :: (u, v) in inter ==> (v, u) in inter
  }

  /** Re-weighting keeps a graph valid and leaves only the two weights. */
  lemma ReweightEffect(g: Graph, inter: set<Edge>, interWeight: real)
    requires Valid(g) && SymmetricTags(inter)
    ensures var h := Reweight(g, inter, interWeight);
      && Valid(h)
      && (forall e :: e in h.adj && e in inter ==> h.adj[e] == interWeight)
      && (forall e :: e in h.adj && e !in inter ==> h.adj[e] == 1.0)
  {
  }

  /** The multiplex builder runs the re-weighting loop twice; the second pass changes nothing. */
  lemma ReweightIdempotent(g: Graph, inter: set<Edge>, interWeight: real)
    ensures Reweight(Reweight(g, inter, interWeight), inter, interWeight) == Reweight(g, inter, interWeight)
  {
  }

  /** `for u, v, data in G.edges(data=True): G[u][v]['weight'] = ...`. */
  method ReweightEdges(g: Graph, inter: set<Edge>, interWeight: real) returns (h: Graph)
    ensures h == Reweight(g, inter, interWeight)
  {
    h := g;
    var todo := g.adj.Keys;
    while todo != {}
      invariant todo <= g.adj.Keys
      invariant h.nodes == g.nodes && h.adj.Keys == g.adj.Keys
      invariant forall e :: e in h.adj ==> h.adj[e] == if e in todo then g.adj[e] else if e in inter then interWeight else 1.0
      decreases todo
    {
      var e :| e in todo;
      h := Graph(h.nodes, h.adj[e := if e in inter then interWeight else 1.0]);
      todo := todo - {e};
    }
  }

  // ---------------------------------------------------------------------------
  // Adding nodes and edges

  /** `G.add_node(u)`: a node not yet in the graph goes to the end of the node order. */
  function AddNode(nodes: seq<Node>, u: Node): (r: seq<Node>)
    ensures forall x :: x in r <==> x in nodes || x == u
    ensures Distinct(nodes) ==> Distinct(r)
    ensures |nodes| <= |r| && r[..|nodes|] == nodes
  {
    if u in nodes then nodes else nodes + [u]
  }

  /** `G.add_edge(u, v)`: both endpoints are added if missing, the edge gets weight `w`. */
  function AddEdge(g: Graph, u: Node, v: Node, w: real): (h: Graph)
    ensures forall x :: x in h.nodes <==> x in g.nodes || x == u || x == v
    ensures h.adj.Keys == g.adj.Keys + {(u, v), (v, u)}
    ensures h.adj[(u, v)] == w && h.adj[(v, u)] == w
    ensures forall e :: e in g.adj && e != (u, v) && e != (v, u) ==> h.adj[e] == g.adj[e]
  {
    Graph(AddNode(AddNode(g.nodes, u), v), g.adj[(u, v) := w][(v, u) := w])
  }

  lemma AddEdgeEndpoints(g: Graph, u: Node, v: Node, w: real)
    requires Valid(g)
    ensures var h := AddEdge(g, u, v, w); forall e :: e in h.adj ==> e.0 in h.nodes && e.1 in h.nodes
  {
    var h := AddEdge(g, u, v, w);
    forall e | e in h.adj ensures e.0 in h.nodes && e.1 in h.nodes {
      if e != (u, v) && e != (v, u) {
        assert e in g.adj;
      }
    }
  }

  lemma AddEdgeSymmetric(g: Graph, u: Node, v: Node, w: real)
    requires Valid(g)
    ensures var h := AddEdge(g, u, v, w);
      forall x, y :: (x, y) in h.adj ==> (y, x) in h.adj && h.adj[(y, x)] == h.adj[(x, y)]
  {
    var h := AddEdge(g, u, v, w);
    forall x, y | (x, y) in h.adj ensures (y, x) in h.adj && h.adj[(y, x)] == h.adj[(x, y)] {
      if (x, y) == (u, v) || (x, y) == (v, u) {
        assert (y, x) == (u, v) || (y, x) == (v, u);
      } else {
        assert (x, y) in g.adj;
        assert (y, x) in g.adj && g.adj[(y, x)] == g.adj[(x, y)];
        assert (y, x) != (u, v) && (y, x) != (v, u);
      }
    }
  }

  /** Adding an edge keeps a graph valid. */
  lemma AddEdgeValid(g: Graph, u: Node, v: Node, w: real)
    requires Valid(g)
    ensures Valid(AddEdge(g, u, v, w))
  {
    AddEdgeEndpoints(g, u, v, w);
    AddEdgeSymmetric(g, u, v, w);
  }

  // ---------------------------------------------------------------------------
  // The multiplex graph

  /** The edges of `g` with both endpoints renamed to `suffix`-nodes. */
  function SuffixedEdges(g: Graph, suffix: string): set<Edge>
  {
    set e | e in g.adj :: (LayerNode(e.0, suffix), LayerNode(e.1, suffix))
  }

  /** The base name of a layer node, `n[:-len(suffix)]`. */
  function Unsuffix(n: Node, suffix: string): string
    requires |suffix| <= |n|
  {
    n[..|n| - |suffix|]
  }

  lemma UnsuffixLayerNode(b: string, suffix: string)
    ensures Unsuffix(LayerNode(b, suffix), suffix) == b
  {
    assert (b + suffix)[..|b|] == b;
  }

  /** Every renamed edge comes from the edge of the two bases. */
  lemma SuffixedEdgeOrigin(g: Graph, suffix: string, e: Edge)
    requires e in SuffixedEdges(g, suffix)
    ensures |suffix| <= |e.0| && |suffix| <= |e.1|
    ensures (Unsuffix(e.0, suffix), Unsuffix(e.1, suffix)) in g.adj
    ensures e == (LayerNode(Unsuffix(e.0, suffix), suffix), LayerNode(Unsuffix(e.1, suffix), suffix))
  {
    var d :| d in g.adj && e == (LayerNode(d.0, suffix), LayerNode(d.1, suffix));
    UnsuffixLayerNode(d.0, suffix);
    UnsuffixLayerNode(d.1, suffix);
  }

  function SuffixedWeight(g: Graph, suffix: string, e: Edge): real
    requires e in SuffixedEdges(g, suffix)
  {
    SuffixedEdgeOrigin(g, suffix, e);
    g.adj[(Unsuffix(e.0, suffix), Unsuffix(e.1, suffix))]
  }

  /**
   * `add_layer_suffix`: `nx.relabel_nodes` with `node -> f"{node}{suffix}"`. The
   * renamed graph has the renamed nodes in the same order, and an edge between
   * two renamed nodes exactly where the original had one, with the same weight.
   */
  function AddLayerSuffix(g: Graph, suffix: string): (h: Graph)
    ensures h.nodes == Suffixed(g.nodes, suffix)
    ensures forall u, v :: (LayerNode(u, suffix), LayerNode(v, suffix)) in h.adj <==> (u, v) in g.adj
    ensures forall u, v :: (u, v) in g.adj ==> h.adj[(LayerNode(u, suffix), LayerNode(v, suffix))] == g.adj[(u, v)]
  {
    var h := Graph(Suffixed(g.nodes, suffix), map e | e in SuffixedEdges(g, suffix) :: SuffixedWeight(g, suffix, e));
    forall u, v ensures (LayerNode(u, suffix), LayerNode(v, suffix)) in h.adj <==> (u, v) in g.adj {
      var e := (LayerNode(u, suffix), LayerNode(v, suffix));
      if e in h.adj {
        SuffixedEdgeOrigin(g, suffix, e);
        UnsuffixLayerNode(u, suffix);
        UnsuffixLayerNode(v, suffix);
      }
    }
    forall u, v | (u, v) in g.adj ensures h.adj[(LayerNode(u, suffix), LayerNode(v, suffix))] == g.adj[(u, v)] {
      UnsuffixLayerNode(u, suffix);
      UnsuffixLayerNode(v, suffix);
    }
    h
  }

  lemma SuffixedMembers(bases: seq<string>, suffix: string, n: Node)
    ensures n in Suffixed(bases, suffix) <==> exists b :: b in bases && n == LayerNode(b, suffix)
  {
    if exists b :: b in bases && n == LayerNode(b, suffix) {
      var b :| b in bases && n == LayerNode(b, suffix);
      var k :| 0 <= k < |bases| && bases[k] == b;
      assert Suffixed(bases, suffix)[k] == n;
    }
  }

  lemma SuffixedDistinct(bases: seq<string>, suffix: string)
    requires Distinct(bases)
    ensures Distinct(Suffixed(bases, suffix))
  {
    forall i, j | 0 <= i < j < |bases| ensures Suffixed(bases, suffix)[i] != Suffixed(bases, suffix)[j] {
      LayerNodeInjective(bases[i], bases[j], suffix);
    }
  }

  /** A renamed valid layer is a valid graph. */
  lemma AddLayerSuffixValid(g: Graph, suffix: string)
    requires Valid(g)
    ensures Valid(AddLayerSuffix(g, suffix))
  {
    var h := AddLayerSuffix(g, suffix);
    SuffixedDistinct(g.nodes, suffix);
    forall e | e in h.adj ensures e.0 in h.nodes && e.1 in h.nodes {
      SuffixedEdgeOrigin(g, suffix, e);
      var u, v := Unsuffix(e.0, suffix), Unsuffix(e.1, suffix);
      SuffixedMembers(g.nodes, suffix, e.0);
      SuffixedMembers(g.nodes, suffix, e.1);
    }
    forall x, y | (x, y) in h.adj ensures (y, x) in h.adj && h.adj[(y, x)] == h.adj[(x, y)] {
      SuffixedEdgeOrigin(g, suffix, (x, y));
    }
  }

  /** The gene names both layers have: `set(adj_p.index) & set(adj_t.index)`. */
  function CommonBases(prot: Graph, trans: Graph): set<string>
  {
    Elems(prot.nodes) * Elems(trans.nodes)
  }

  /** The interlayer edges `b.p -- b.t` of the common genes, both orientations. */
  function InterlayerEdges(common: set<string>): set<Edge>
  {
    (set b | b in common :: (LayerNode(b, ProteinSuffix), LayerNode(b, TranscriptSuffix)))
    + (set b | b in common :: (LayerNode(b, TranscriptSuffix), LayerNode(b, ProteinSuffix)))
  }

  /** An interlayer edge joins the two nodes of one common gene. */
  lemma InterlayerOrigin(common: set<string>, e: Edge) returns (b: string)
    requires e in InterlayerEdges(common)
    ensures b in common
    ensures e == (LayerNode(b, ProteinSuffix), LayerNode(b, TranscriptSuffix))
         || e == (LayerNode(b, TranscriptSuffix), LayerNode(b, ProteinSuffix))
  {
    b :| b in common && (e == (LayerNode(b, ProteinSuffix), LayerNode(b, TranscriptSuffix))
                      || e == (LayerNode(b, TranscriptSuffix), LayerNode(b, ProteinSuffix)));
  }

  /** Two nodes of the same layer are never joined by an interlayer edge. */
  lemma NotInterlayer(common: set<string>, u: string, v: string, suffix: string)
    requires suffix == ProteinSuffix || suffix == TranscriptSuffix
    ensures (LayerNode(u, suffix), LayerNode(v, suffix)) !in InterlayerEdges(common)
  {
    var e := (LayerNode(u, suffix), LayerNode(v, suffix));
    if e in InterlayerEdges(common) {
      var b := InterlayerOrigin(common, e);
      if suffix == ProteinSuffix {
        LayersDisjoint(v, b);
        LayersDisjoint(u, b);
      } else {
        LayersDisjoint(b, u);
        LayersDisjoint(b, v);
      }
    }
  }

  /** The two renamed layers placed side by side, before the interlayer edges. */
  function Layers(prot: Graph, trans: Graph): Graph
  {
    var p, t := AddLayerSuffix(prot, ProteinSuffix), AddLayerSuffix(trans, TranscriptSuffix);
    Graph(p.nodes + t.nodes, p.adj + t.adj)
  }

  /** `add_edge(f"{b}.p", f"{b}.t", layer='interlayer')` for every tagged pair. */
  function WithInterlayer(layers: Graph, inter: set<Edge>): Graph
  {
    Graph(layers.nodes, layers.adj + map e | e in inter :: 1.0)
  }

  lemma WithoutInterlayer(layers: Graph)
    ensures WithInterlayer(layers, {}) == layers
  {
    var none: set<Edge> := {};
    assert layers.adj + (map e | e in none :: 1.0) == layers.adj;
  }

  /**
   * The weighted multiplex: both renamed layers, an interlayer edge for every
   * common gene, and every weight set to 1 (`inter_layer_weight = 1`).
   */
  function Multiplex(prot: Graph, trans: Graph): Graph
  {
    var l := Layers(prot, trans);
    var inter := InterlayerEdges(CommonBases(prot, trans));
    Reweight(WithInterlayer(l, inter), inter, 1.0)
  }

  /** The edges of the multiplex: the two renamed layers and the interlayer edges. */
  lemma MultiplexKeys(prot: Graph, trans: Graph)
    ensures Multiplex(prot, trans).adj.Keys
         == AddLayerSuffix(prot, ProteinSuffix).adj.Keys + AddLayerSuffix(trans, TranscriptSuffix).adj.Keys
            + InterlayerEdges(CommonBases(prot, trans))
  {
  }

  /** A pair with a transcript node is no edge of the renamed protein layer. */
  lemma NotInProteinLayer(prot: Graph, x: Node, y: Node, a: string)
    requires x == LayerNode(a, TranscriptSuffix) || y == LayerNode(a, TranscriptSuffix)
    ensures (x, y) !in AddLayerSuffix(prot, ProteinSuffix).adj
  {
    if (x, y) in AddLayerSuffix(prot, ProteinSuffix).adj {
      AddLayerSuffixEndpoint(prot, ProteinSuffix, (x, y));
      LayersDisjoint(Unsuffix(x, ProteinSuffix), a);
      LayersDisjoint(Unsuffix(y, ProteinSuffix), a);
    }
  }

  /** A pair with a protein node is no edge of the renamed transcript layer. */
  lemma NotInTranscriptLayer(trans: Graph, x: Node, y: Node, a: string)
    requires x == LayerNode(a, ProteinSuffix) || y == LayerNode(a, ProteinSuffix)
    ensures (x, y) !in AddLayerSuffix(trans, TranscriptSuffix).adj
  {
    if (x, y) in AddLayerSuffix(trans, TranscriptSuffix).adj {
      AddLayerSuffixEndpoint(trans, TranscriptSuffix, (x, y));
      LayersDisjoint(a, Unsuffix(x, TranscriptSuffix));
      LayersDisjoint(a, Unsuffix(y, TranscriptSuffix));
    }
  }

  /** The interlayer edge from `u.p` goes to `u.t`, and exists exactly for a common gene. */
  lemma InterlayerMember(common: set<string>, u: string, v: string)
    ensures (LayerNode(u, ProteinSuffix), LayerNode(v, TranscriptSuffix)) in InterlayerEdges(common)
        <==> u == v && u in common
  {
    var e := (LayerNode(u, ProteinSuffix), LayerNode(v, TranscriptSuffix));
    if e in InterlayerEdges(common) {
      var b := InterlayerOrigin(common, e);
      LayersDisjoint(u, b);
      LayerNodeInjective(u, b, ProteinSuffix);
      LayerNodeInjective(v, b, TranscriptSuffix);
    }
  }

  /** Two protein nodes are joined in the multiplex exactly when their genes are joined in the protein layer. */
  lemma MultiplexProteinEdges(prot: Graph, trans: Graph, u: string, v: string)
    ensures (LayerNode(u, ProteinSuffix), LayerNode(v, ProteinSuffix)) in Multiplex(prot, trans).adj
        <==> (u, v) in prot.adj
  {
    NotInTranscriptLayer(trans, LayerNode(u, ProteinSuffix), LayerNode(v, ProteinSuffix), u);
    NotInterlayer(CommonBases(prot, trans), u, v, ProteinSuffix);
    MultiplexKeys(prot, trans);
  }

  /** Two transcript nodes are joined in the multiplex exactly when their genes are joined in the transcript layer. */
  lemma MultiplexTranscriptEdges(prot: Graph, trans: Graph, u: string, v: string)
    ensures (LayerNode(u, TranscriptSuffix), LayerNode(v, TranscriptSuffix)) in Multiplex(prot, trans).adj
        <==> (u, v) in trans.adj
  {
    NotInProteinLayer(prot, LayerNode(u, TranscriptSuffix), LayerNode(v, TranscriptSuffix), u);
    NotInterlayer(CommonBases(prot, trans), u, v, TranscriptSuffix);
    MultiplexKeys(prot, trans);
  }

  /**
   * A protein node and a transcript node are joined exactly when they are the
   * two nodes of one gene that both layers have.
   */
  lemma MultiplexInterlayerEdges(prot: Graph, trans: Graph, u: string, v: string)
    ensures (LayerNode(u, ProteinSuffix), LayerNode(v, TranscriptSuffix)) in Multiplex(prot, trans).adj
        <==> u == v && u in prot.nodes && u in trans.nodes
  {
    MixedPairs(prot, trans, LayerNode(u, ProteinSuffix), LayerNode(v, TranscriptSuffix), u, v);
    InterlayerMember(CommonBases(prot, trans), u, v);
    CommonBasesMember(prot, trans, u);
  }

  lemma CommonBasesMember(prot: Graph, trans: Graph, u: string)
    ensures u in CommonBases(prot, trans) <==> u in prot.nodes && u in trans.nodes
  {
  }

  lemma MixedPairs(prot: Graph, trans: Graph, x: Node, y: Node, u: string, v: string)
    requires x == LayerNode(u, ProteinSuffix) && y == LayerNode(v, TranscriptSuffix)
    ensures (x, y) in Multiplex(prot, trans).adj <==> (x, y) in InterlayerEdges(CommonBases(prot, trans))
  {
    NotInProteinLayer(prot, x, y, v);
    NotInTranscriptLayer(trans, x, y, u);
    MultiplexKeys(prot, trans);
  }

  /** The multiplex's nodes: every protein node, then every transcript node, each once. */
  lemma MultiplexNodes(prot: Graph, trans: Graph)
    requires Valid(prot) && Valid(trans)
    ensures Multiplex(prot, trans).nodes == Suffixed(prot.nodes, ProteinSuffix) + Suffixed(trans.nodes, TranscriptSuffix)
    ensures Distinct(Multiplex(prot, trans).nodes)
  {
    var ps, ts := Suffixed(prot.nodes, ProteinSuffix), Suffixed(trans.nodes, TranscriptSuffix);
    SuffixedDistinct(prot.nodes, ProteinSuffix);
    SuffixedDistinct(trans.nodes, TranscriptSuffix);
    forall i, j | 0 <= i < |ps| && 0 <= j < |ts| ensures ps[i] != ts[j] {
      LayersDisjoint(prot.nodes[i], trans.nodes[j]);
    }
    assert Multiplex(prot, trans).nodes == ps + ts;
  }

  /** Every interlayer edge joins two nodes of the multiplex, and is tagged both ways. */
  lemma InterlayerEndpoints(prot: Graph, trans: Graph)
    ensures var inter := InterlayerEdges(CommonBases(prot, trans));
      && SymmetricTags(inter)
      && forall e :: e in inter ==> e.0 in Layers(prot, trans).nodes && e.1 in Layers(prot, trans).nodes
  {
    var common := CommonBases(prot, trans);
    var inter := InterlayerEdges(common);
    forall e | e in inter ensures e.0 in Layers(prot, trans).nodes && e.1 in Layers(prot, trans).nodes {
      var b := InterlayerOrigin(common, e);
      SuffixedMembers(prot.nodes, ProteinSuffix, LayerNode(b, ProteinSuffix));
      SuffixedMembers(trans.nodes, TranscriptSuffix, LayerNode(b, TranscriptSuffix));
    }
    forall u, v | (u, v) in inter ensures (v, u) in inter {
      var b := InterlayerOrigin(common, (u, v));
    }
  }

  /** Two graphs side by side keep edge endpoints among the nodes and both orientations of every edge. */
  lemma SideBySide(p: Graph, t: Graph)
    requires Valid(p) && Valid(t)
    ensures var l := Graph(p.nodes + t.nodes, p.adj + t.adj);
      && (forall e :: e in l.adj ==> e.0 in l.nodes && e.1 in l.nodes)
      && (forall u, v :: (u, v) in l.adj ==> (v, u) in l.adj)
  {
    var l := Graph(p.nodes + t.nodes, p.adj + t.adj);
    forall u, v | (u, v) in l.adj ensures (v, u) in l.adj {
      if (u, v) in t.adj {
        assert (v, u) in t.adj;
      } else {
        assert (v, u) in p.adj;
      }
    }
  }

  /** The layers side by side form a valid graph. */
  lemma LayersValid(prot: Graph, trans: Graph)
    requires Valid(prot) && Valid(trans)
    ensures var l := Layers(prot, trans);
      && (forall e :: e in l.adj ==> e.0 in l.nodes && e.1 in l.nodes)
      && (forall u, v :: (u, v) in l.adj ==> (v, u) in l.adj)
  {
    AddLayerSuffixValid(prot, ProteinSuffix);
    AddLayerSuffixValid(trans, TranscriptSuffix);
    SideBySide(AddLayerSuffix(prot, ProteinSuffix), AddLayerSuffix(trans, TranscriptSuffix));
  }

  /**
   * The multiplex of two valid layers is a valid graph whose every edge has
   * weight 1.
   */
  lemma MultiplexValid(prot: Graph, trans: Graph)
    requires Valid(prot) && Valid(trans)
    ensures Valid(Multiplex(prot, trans))
    ensures forall e :: e in Multiplex(prot, trans).adj ==> Multiplex(prot, trans).adj[e] == 1.0
  {
    MultiplexNodes(prot, trans);
    InterlayerEndpoints(prot, trans);
    LayersValid(prot, trans);
    MultiplexKeys(prot, trans);
  }

  lemma InterlayerStep(done: set<string>, b: string)
    ensures InterlayerEdges(done + {b})
         == InterlayerEdges(done) + {(LayerNode(b, ProteinSuffix), LayerNode(b, TranscriptSuffix)),
                                     (LayerNode(b, TranscriptSuffix), LayerNode(b, ProteinSuffix))}
  {
  }

  /** Adding one interlayer edge (weight 1) to the layers extends the tagged edges by it. */
  lemma AddInterlayerEdge(layers: Graph, inter: set<Edge>, x: Node, y: Node)
    requires x in layers.nodes && y in layers.nodes
    ensures AddEdge(WithInterlayer(layers, inter), x, y, 1.0)
         == WithInterlayer(layers, inter + {(x, y), (y, x)})
  {
  }

  /** One iteration of the interlayer loop of the multiplex builder. */
  lemma BuilderStep(layers: Graph, common: set<string>, todo: set<string>, b: string)
    requires todo <= common && b in todo
    requires LayerNode(b, ProteinSuffix) in layers.nodes && LayerNode(b, TranscriptSuffix) in layers.nodes
    ensures var x, y := LayerNode(b, ProteinSuffix), LayerNode(b, TranscriptSuffix);
      && InterlayerEdges(common - todo) + {(x, y), (y, x)} == InterlayerEdges(common - (todo - {b}))
      && AddEdge(WithInterlayer(layers, InterlayerEdges(common - todo)), x, y, 1.0)
         == WithInterlayer(layers, InterlayerEdges(common - (todo - {b})))
  {
    var x, y := LayerNode(b, ProteinSuffix), LayerNode(b, TranscriptSuffix);
    assert common - (todo - {b}) == (common - todo) + {b};
    InterlayerStep(common - todo, b);
    AddInterlayerEdge(layers, InterlayerEdges(common - todo), x, y);
  }

  /**
   * `weighted_multi_omics_graph`: rename both layers, put them side by side,
   * join the two nodes of every common gene and set every weight to 1 (the
   * re-weighting loop runs twice).
   */
  method WeightedMultiOmicsGraph(prot: Graph, trans: Graph) returns (g: Graph)
    requires Valid(prot) && Valid(trans)
    ensures g == Multiplex(prot, trans)
  {
    var layers := Layers(prot, trans);
    var common := CommonBases(prot, trans);
    InterlayerEndpoints(prot, trans);
    var m := layers;
    var inter: set<Edge> := {};
    var todo := common;
    assert common - todo == {};
    WithoutInterlayer(layers);
    while todo != {}
      invariant todo <= common
      invariant inter == InterlayerEdges(common - todo)
      invariant m == WithInterlayer(layers, inter)
      decreases todo
    {
      var b :| b in todo;
      var x, y := LayerNode(b, ProteinSuffix), LayerNode(b, TranscriptSuffix);
      assert (x, y) in InterlayerEdges(common);
      BuilderStep(layers, common, todo, b);
      ghost var next := InterlayerEdges(common - (todo - {b}));
      assert AddEdge(m, x, y, 1.0) == WithInterlayer(layers, next);
      m := AddEdge(m, x, y, 1.0);
      inter := inter + {(x, y), (y, x)};
      assert inter == next;
      todo := todo - {b};
    }
    assert common - todo == common;
    g := ReweightEdges(m, inter, 1.0);
    g := ReweightEdges(g, inter, 1.0);
    ReweightIdempotent(m, inter, 1.0);
  }

  /** Every endpoint of a renamed edge carries the suffix. */
  lemma AddLayerSuffixEndpoint(g: Graph, suffix: string, e: Edge)
    requires e in AddLayerSuffix(g, suffix).adj
    ensures |suffix| <= |e.0| && |suffix| <= |e.1|
    ensures e.0 == LayerNode(Unsuffix(e.0, suffix), suffix) && e.1 == LayerNode(Unsuffix(e.1, suffix), suffix)
  {
    SuffixedEdgeOrigin(g, suffix, e);
  }
}
