/**
 * The weighted undirected graph the diffusion engine works on (a networkx `Graph`
 * whose edges carry a `weight` attribute).
 *
 * `nodes` is the node insertion order, which fixes the row order of every matrix
 * built from the graph; `adj` holds BOTH orientations of every undirected edge,
 * as the adjacency `G[u][v]` does.
 */
module Graphs {

  type Node = string
  type Edge = (Node, Node)

  datatype Graph = Graph(nodes: seq<Node>, adj: map<Edge, real>)

  predicate Distinct<T(==)>(s: seq<T>)
  {
    forall i, j :: 0 <= i < j < |s| ==> s[i] != s[j]
  }

  /** The representation invariant every networkx graph satisfies. */
  ghost predicate Valid(g: Graph)
  {
    && Distinct(g.nodes)
    && (forall e :: e in g.adj ==> e.0 in g.nodes && e.1 in g.nodes)
    && (forall u, v :: (u, v) in g.adj ==> (v, u) in g.adj && g.adj[(v, u)] == g.adj[(u, v)])
  }

  /** The weight networkx reads for the pair, 0 where there is no edge (`to_numpy_array`). */
  function WeightOf(g: Graph, u: Node, v: Node): real
  {
    if (u, v) in g.adj then g.adj[(u, v)] else 0.0
  }

  /** The candidates adjacent to `u`, in candidate order. */
  function NeighborsIn(candidates: seq<Node>, adj: map<Edge, real>, u: Node): (r: seq<Node>)
    ensures forall v :: v in r <==> v in candidates && (u, v) in adj
    ensures |r| <= |candidates|
    ensures Distinct(candidates) ==> Distinct(r)
  {
    if |candidates| == 0 then []
    else
      var rest := NeighborsIn(candidates[1..], adj, u);
      assert forall v :: v in candidates <==> v == candidates[0] || v in candidates[1..];
      if (u, candidates[0]) in adj then [candidates[0]] + rest else rest
  }

  /** `G[u]`: the neighbours of `u` (in node order). */
  function Neighbors(g: Graph, u: Node): seq<Node>
  {
    NeighborsIn(g.nodes, g.adj, u)
  }

  /** `G.degree(u)`: neighbours counted once, a self-loop counted twice. */
  function Degree(g: Graph, u: Node): nat
  {
    |Neighbors(g, u)| + (if (u, u) in g.adj then 1 else 0)
  }

  /** A node has degree zero exactly when no edge touches it. */
  lemma DegreeZeroIffIsolated(g: Graph, u: Node)
    requires Valid(g)
    ensures Degree(g, u) == 0 <==> forall v :: (u, v) !in g.adj
  {
    if Degree(g, u) != 0 {
      if (u, u) !in g.adj {
        var v := Neighbors(g, u)[0];
        assert (u, v) in g.adj;
      }
    } else {
      forall v ensures (u, v) !in g.adj {
        assert (u, v) in g.adj ==> v in Neighbors(g, u);
      }
    }
  }
}
