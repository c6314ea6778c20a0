/**
 * `double5_demonet`: the ten-node demonstration network. Genes 1 to 5 each
 * have a protein node and a transcript node; each layer is a five-ring with
 * one extra chord, and each gene's two nodes are joined by an interlayer edge.
 */
module DemoNet {
  import opened Graphs
  import opened Text
  import opened NodeNames
  import opened Assembly

  /**
   * Node `k` of the demonstration network: `k+1.p` for `k < 5`, `k-4.t` for
   * `5 <= k < 10`.
   */
  function DemoNode(k: nat): Node
  {
    if k < 5 then LayerNode(NatToString(k + 1), ProteinSuffix) else LayerNode(NatToString(k - 4), TranscriptSuffix)
  }

  /** `nodes_A + nodes_B`, the order in which the nodes are added. */
  function DemoNodes(): (r: seq<Node>)
    ensures |r| == 10 && forall k :: 0 <= k < 10 ==> r[k] == DemoNode(k)
  {
    seq(10, k requires 0 <= k < 10 => DemoNode(k))
  }

  /** The neighbour one step back round the ring of five. */
  function Prev(i: nat): nat
  {
    if i == 0 then 4 else i - 1
  }

  /** The ring edges of the first `n` positions in both layers, as index pairs. */
  function RingPairs(n: nat): set<(nat, nat)>
  {
    (set j: nat | j < n :: (j, Prev(j))) + (set j: nat | j < n :: (5 + j, 5 + Prev(j)))
  }

  /** The index of the transcript node of the gene whose protein node is `i`. */
  function Twin(i: nat): nat
  {
    5 + i
  }

  /** The interlayer edges of the first `n` genes, as index pairs. */
  function InterPairs(n: nat): set<(nat, nat)>
  {
    set j: nat | j < n :: (j, Twin(j))
  }

  /** The two manual chords, `1.t`–`3.t` and `1.p`–`4.p`. */
  function ChordPairs(): set<(nat, nat)>
  {
    {(5, 7), (0, 3)}
  }

  /** Both orientations of every index pair, as edges between demonstration nodes. */
  function Undirected(pairs: set<(nat, nat)>): set<Edge>
  {
    (set p | p in pairs :: (DemoNode(p.0), DemoNode(p.1))) + (set p | p in pairs :: (DemoNode(p.1), DemoNode(p.0)))
  }

  /** A graph whose edges all carry the placeholder weight `1.0`. */
  function Unweighted(nodes: seq<Node>, edges: set<Edge>): Graph
  {
    Graph(nodes, map e | e in edges :: 1.0)
  }

  /** The network `double5_demonet` returns. */
  function Demo(interWeight: real): Graph
  {
    Reweight(Unweighted(DemoNodes(), Undirected(RingPairs(5) + InterPairs(5) + ChordPairs())),
             Undirected(InterPairs(5)), interWeight)
  }

  lemma PythonPrev(i: nat)
    requires i < 5
    ensures (i - 1) % 5 == Prev(i)
  {
  }

  lemma ProteinNodesInjective(k: nat, l: nat)
    requires k < 5 && l < 5
    ensures DemoNode(k) == DemoNode(l) <==> k == l
  {
    LayerNodeInjective(NatToString(k + 1), NatToString(l + 1), ProteinSuffix);
  }

  lemma TranscriptNodesInjective(k: nat, l: nat)
    requires 5 <= k < 10 && 5 <= l < 10
    ensures DemoNode(k) == DemoNode(l) <==> k == l
  {
    LayerNodeInjective(NatToString(k - 4), NatToString(l - 4), TranscriptSuffix);
  }

  lemma ProteinNotTranscript(k: nat, l: nat)
    requires k < 5 && 5 <= l < 10
    ensures DemoNode(k) != DemoNode(l)
  {
    LayersDisjoint(NatToString(k + 1), NatToString(l - 4));
  }

  lemma DemoNodeInjective(k: nat, l: nat)
    requires k < 10 && l < 10
    ensures DemoNode(k) == DemoNode(l) <==> k == l
  {
    if k < 5 && l < 5 {
      ProteinNodesInjective(k, l);
    } else if k >= 5 && l >= 5 {
      TranscriptNodesInjective(k, l);
    } else if k < 5 {
      ProteinNotTranscript(k, l);
    } else {
      ProteinNotTranscript(l, k);
    }
  }

  lemma UndirectedAdd(pairs: set<(nat, nat)>, a: nat, b: nat)
    ensures Undirected(pairs + {(a, b)}) == Undirected(pairs) + {(DemoNode(a), DemoNode(b)), (DemoNode(b), DemoNode(a))}
  {
  }

  lemma AddUnweighted(nodes: seq<Node>, edges: set<Edge>, u: Node, v: Node)
    requires u in nodes && v in nodes
    ensures AddEdge(Unweighted(nodes, edges), u, v, 1.0) == Unweighted(nodes, edges + {(u, v), (v, u)})
  {
    var h := AddEdge(Unweighted(nodes, edges), u, v, 1.0);
    assert h.adj == map e | e in edges + {(u, v), (v, u)} :: 1.0;
  }

  /** One step of either construction loop: add the edge between index nodes `a` and `b`. */
  lemma DemoStep(pairs: set<(nat, nat)>, a: nat, b: nat)
    requires a < 10 && b < 10
    ensures AddEdge(Unweighted(DemoNodes(), Undirected(pairs)), DemoNode(a), DemoNode(b), 1.0)
         == Unweighted(DemoNodes(), Undirected(pairs + {(a, b)}))
  {
    assert DemoNodes()[a] == DemoNode(a) && DemoNodes()[b] == DemoNode(b);
    AddUnweighted(DemoNodes(), Undirected(pairs), DemoNode(a), DemoNode(b));
    UndirectedAdd(pairs, a, b);
  }

  lemma RingPairsStep(i: nat)
    ensures RingPairs(i + 1) == RingPairs(i) + {(i, Prev(i))} + {(5 + i, 5 + Prev(i))}
  {
  }

  lemma InterPairsStep(i: nat)
    ensures InterPairs(i + 1) == InterPairs(i) + {(i, Twin(i))}
  {
  }

  /** One pass of the ring loop: the edge at position `i` in each layer. */
  lemma RingStep(i: nat)
    requires i < 5
    ensures AddEdge(AddEdge(Unweighted(DemoNodes(), Undirected(RingPairs(i))), DemoNode(i), DemoNode(Prev(i)), 1.0),
                    DemoNode(5 + i), DemoNode(5 + Prev(i)), 1.0)
         == Unweighted(DemoNodes(), Undirected(RingPairs(i + 1)))
  {
    DemoStep(RingPairs(i), i, Prev(i));
    DemoStep(RingPairs(i) + {(i, Prev(i))}, 5 + i, 5 + Prev(i));
    RingPairsStep(i);
  }

  /** One pass of the interlayer loop: the edge joining gene `i`'s two nodes. */
  lemma InterStep(i: nat)
    requires i < 5
    ensures AddEdge(Unweighted(DemoNodes(), Undirected(RingPairs(5) + InterPairs(i))), DemoNode(i), DemoNode(Twin(i)), 1.0)
         == Unweighted(DemoNodes(), Undirected(RingPairs(5) + InterPairs(i + 1)))
    ensures Undirected(InterPairs(i + 1)) == Undirected(InterPairs(i)) + {(DemoNode(i), DemoNode(Twin(i))), (DemoNode(Twin(i)), DemoNode(i))}
  {
    DemoStep(RingPairs(5) + InterPairs(i), i, Twin(i));
    InterPairsStep(i);
    assert RingPairs(5) + InterPairs(i) + {(i, Twin(i))} == RingPairs(5) + InterPairs(i + 1);
    UndirectedAdd(InterPairs(i), i, Twin(i));
  }

  /** The two chords, added by name. */
  lemma ChordStep()
    ensures AddEdge(AddEdge(Unweighted(DemoNodes(), Undirected(RingPairs(5) + InterPairs(5))), "1.t", "3.t", 1.0), "1.p", "4.p", 1.0)
         == Unweighted(DemoNodes(), Undirected(RingPairs(5) + InterPairs(5) + ChordPairs()))
  {
    DemoNodeNames();
    DemoStep(RingPairs(5) + InterPairs(5), 5, 7);
    DemoStep(RingPairs(5) + InterPairs(5) + {(5, 7)}, 0, 3);
    assert RingPairs(5) + InterPairs(5) + {(5, 7)} + {(0, 3)} == RingPairs(5) + InterPairs(5) + ChordPairs();
  }

  lemma DemoNodeNames()
    ensures DemoNode(5) == "1.t" && DemoNode(7) == "3.t" && DemoNode(0) == "1.p" && DemoNode(3) == "4.p"
  {
    assert NatToString(1) == [DigitChar(1)] == "1";
    assert NatToString(3) == [DigitChar(3)] == "3";
    assert NatToString(4) == [DigitChar(4)] == "4";
  }

  lemma UndirectedSymmetric(pairs: set<(nat, nat)>)
    ensures SymmetricTags(Undirected(pairs))
  {
  }

  lemma UndirectedEndpoints(pairs: set<(nat, nat)>, e: Edge)
    requires forall p :: p in pairs ==> p.0 < 10 && p.1 < 10
    requires e in Undirected(pairs)
    ensures e.0 in DemoNodes() && e.1 in DemoNodes()
  {
    var p :| p in pairs && (e == (DemoNode(p.0), DemoNode(p.1)) || e == (DemoNode(p.1), DemoNode(p.0)));
    assert DemoNodes()[p.0] == DemoNode(p.0) && DemoNodes()[p.1] == DemoNode(p.1);
  }

  lemma DemoNodesDistinct()
    ensures Distinct(DemoNodes())
  {
    forall i, j | 0 <= i < j < 10 ensures DemoNodes()[i] != DemoNodes()[j] {
      DemoNodeInjective(i, j);
    }
  }

  lemma UnweightedValid(pairs: set<(nat, nat)>)
    requires forall p :: p in pairs ==> p.0 < 10 && p.1 < 10
    ensures Valid(Unweighted(DemoNodes(), Undirected(pairs)))
  {
    var m := Unweighted(DemoNodes(), Undirected(pairs));
    DemoNodesDistinct();
    forall e | e in m.adj ensures e.0 in m.nodes && e.1 in m.nodes {
      UndirectedEndpoints(pairs, e);
    }
    UndirectedSymmetric(pairs);
  }

  lemma DemoPairsBounded()
    ensures forall p :: p in RingPairs(5) + InterPairs(5) + ChordPairs() ==> p.0 < 10 && p.1 < 10
  {
  }

  /**
   * The demonstration network is a valid undirected graph on ten distinct
   * nodes; its interlayer edges weigh `interWeight` and every other edge `1.0`.
   */
  lemma DemoValid(interWeight: real)
    ensures Valid(Demo(interWeight))
    ensures forall e :: e in Demo(interWeight).adj ==>
      Demo(interWeight).adj[e] == if e in Undirected(InterPairs(5)) then interWeight else 1.0
    ensures forall j :: 0 <= j < 5 ==> (DemoNode(j), DemoNode(Twin(j))) in Demo(interWeight).adj
  {
    var pairs := RingPairs(5) + InterPairs(5) + ChordPairs();
    DemoPairsBounded();
    UnweightedValid(pairs);
    UndirectedSymmetric(InterPairs(5));
    ReweightEffect(Unweighted(DemoNodes(), Undirected(pairs)), Undirected(InterPairs(5)), interWeight);
    forall j | 0 <= j < 5 ensures (DemoNode(j), DemoNode(Twin(j))) in Demo(interWeight).adj {
      assert (j, Twin(j)) in pairs;
    }
  }

  /** `nodes_A`: the protein nodes `1.p` .. `5.p`. */
  function ProteinLayer(): (r: seq<Node>)
    ensures |r| == 5 && forall i :: 0 <= i < 5 ==> r[i] == DemoNode(i)
  {
    seq(5, i requires 0 <= i < 5 => LayerNode(NatToString(i + 1), ProteinSuffix))
  }

  /** `nodes_B`: the transcript nodes `1.t` .. `5.t`. */
  function TranscriptLayer(): (r: seq<Node>)
    ensures |r| == 5 && forall i :: 0 <= i < 5 ==> r[i] == DemoNode(Twin(i))
  {
    seq(5, i requires 0 <= i < 5 => LayerNode(NatToString(i + 1), TranscriptSuffix))
  }

  /** The graph holding the ten nodes and no edge yet. */
  lemma DemoStart()
    ensures ProteinLayer() + TranscriptLayer() == DemoNodes()
    ensures Graph(ProteinLayer() + TranscriptLayer(), map[]) == Unweighted(DemoNodes(), Undirected(RingPairs(0)))
    ensures RingPairs(5) + InterPairs(0) == RingPairs(5)
  {
    assert ProteinLayer() + TranscriptLayer() == DemoNodes();
    assert Undirected(RingPairs(0)) == {};
  }

  /** The ring loop's index arithmetic: position `(i - 1) % 5` of each layer. */
  lemma RingIndices(i: nat)
    requires i < 5
    ensures (i - 1) % 5 == Prev(i)
    ensures ProteinLayer()[i] == DemoNode(i) && TranscriptLayer()[i] == DemoNode(5 + i)
    ensures ProteinLayer()[Prev(i)] == DemoNode(Prev(i)) && TranscriptLayer()[Prev(i)] == DemoNode(5 + Prev(i))
  {
    PythonPrev(i);
  }

  /** `double5_demonet(inter_layer_weight)`: the network, without its adjacency table and Laplacian. */
  method Double5Demonet(interWeight: real) returns (g: Graph)
    ensures g == Demo(interWeight)
  {
    var nodesA := ProteinLayer();
    var nodesB := TranscriptLayer();
    DemoStart();
    var m := Graph(nodesA + nodesB, map[]);
    for i := 0 to 5
      invariant m == Unweighted(DemoNodes(), Undirected(RingPairs(i)))
    {
      RingIndices(i);
      RingStep(i);
      m := AddEdge(m, nodesA[i], nodesA[(i - 1) % 5], 1.0);
      m := AddEdge(m, nodesB[i], nodesB[(i - 1) % 5], 1.0);
    }
    var inter: set<Edge> := {};
    for i := 0 to 5
      invariant m == Unweighted(DemoNodes(), Undirected(RingPairs(5) + InterPairs(i)))
      invariant inter == Undirected(InterPairs(i))
    {
      InterStep(i);
      m := AddEdge(m, nodesA[i], nodesB[i], 1.0);
      inter := inter + {(nodesA[i], nodesB[i]), (nodesB[i], nodesA[i])};
    }
    ChordStep();
    m := AddEdge(m, "1.t", "3.t", 1.0);
    m := AddEdge(m, "1.p", "4.p", 1.0);
    g := ReweightEdges(m, inter, interWeight);
  }
}
