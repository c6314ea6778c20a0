/**
 * The connectivity diagnostics of the pathway and random knockdowns:
 * `nx.connected_components(G.subgraph(listed))`, the components of the subgraph
 * induced on the listed names that are nodes of G.
 *
 * A component is returned as the sequence of its nodes in discovery order. The
 * order of the components themselves is not specified by the source (networkx
 * walks a set there), so the contracts speak only of the partition.
 */
module Components {

  import opened Graphs

  function Elems(c: seq<Node>): set<Node>
  {
    set x | x in c
  }

  /** The node set of `G.subgraph(listed)`: the distinct listed names that are nodes. */
  function Present(g: Graph, listed: seq<Node>): set<Node>
  {
    set x | x in listed && x in g.nodes
  }

  /** No edge of the subgraph induced on s leaves c. */
  ghost predicate Closed(g: Graph, s: set<Node>, c: set<Node>)
  {
    forall u, v :: u in c && v in s && (u, v) in g.adj ==> v in c
  }

  /** c[k] is adjacent to a node listed before it. */
  ghost predicate LinkedBack(g: Graph, c: seq<Node>, k: nat)
    requires k < |c|
  {
    exists j :: 0 <= j < k && (c[j], c[k]) in g.adj
  }

  /** Each node after the first is adjacent to an earlier one: c is connected. */
  ghost predicate Chained(g: Graph, c: seq<Node>)
  {
    forall k :: 0 < k < |c| ==> LinkedBack(g, c, k)
  }

  /** c lists, once each, the nodes of one connected component of the subgraph induced on s. */
  ghost predicate IsComponent(g: Graph, s: set<Node>, c: seq<Node>)
  {
    && |c| > 0
    && Distinct(c)
    && (forall k :: 0 <= k < |c| ==> c[k] in s)
    && Chained(g, c)
    && Closed(g, s, Elems(c))
  }

  /** comps are components, pairwise disjoint, and together cover s. */
  ghost predicate IsComponentPartition(g: Graph, s: set<Node>, comps: seq<seq<Node>>)
  {
    && (forall a :: 0 <= a < |comps| ==> IsComponent(g, s, comps[a]))
    && (forall a, b, x :: 0 <= a < b < |comps| && x in comps[a] ==> x !in comps[b])
    && (forall x :: x in s ==> exists a :: 0 <= a < |comps| && x in comps[a])
  }

  function Lengths(comps: seq<seq<Node>>): (r: seq<nat>)
    ensures |r| == |comps| && forall a :: 0 <= a < |comps| ==> r[a] == |comps[a]|
  {
    seq(|comps|, a requires 0 <= a < |comps| => |comps[a]|)
  }

  function SumNat(s: seq<nat>): nat
  {
    if |s| == 0 then 0 else SumNat(s[..|s| - 1]) + s[|s| - 1]
  }

  predicate Covered(comps: seq<seq<Node>>, x: Node)
  {
    exists a :: 0 <= a < |comps| && x in comps[a]
  }

  /**
   * A connected chain that meets a closed set lies inside it: walk back to the
   * first node along the chain (edges are symmetric), then forward again.
   */
  lemma ChainInsideClosed(g: Graph, s: set<Node>, c: seq<Node>, d: set<Node>, m: nat)
    requires Valid(g) && IsComponent(g, s, c) && Closed(g, s, d)
    requires m < |c| && c[m] in d
    ensures Elems(c) <= d
  {
    RootInsideClosed(g, s, c, d, m);
    forall k | 0 <= k < |c| ensures c[k] in d {
      ForwardInsideClosed(g, s, c, d, k);
    }
  }

  lemma {:induction false} RootInsideClosed(g: Graph, s: set<Node>, c: seq<Node>, d: set<Node>, m: nat)
    requires Valid(g) && IsComponent(g, s, c) && Closed(g, s, d)
    requires m < |c| && c[m] in d
    ensures c[0] in d
    decreases m
  {
    if m > 0 {
      assert LinkedBack(g, c, m);
      var j :| 0 <= j < m && (c[j], c[m]) in g.adj;
      assert (c[m], c[j]) in g.adj;
      assert c[j] in s;
      RootInsideClosed(g, s, c, d, j);
    }
  }

  lemma {:induction false} ForwardInsideClosed(g: Graph, s: set<Node>, c: seq<Node>, d: set<Node>, k: nat)
    requires IsComponent(g, s, c) && Closed(g, s, d)
    requires c[0] in d && k < |c|
    ensures c[k] in d
    decreases k
  {
    if k > 0 {
      assert LinkedBack(g, c, k);
      var j :| 0 <= j < k && (c[j], c[k]) in g.adj;
      ForwardInsideClosed(g, s, c, d, j);
      assert c[k] in s;
    }
  }

  /** Two components that share a node have the same nodes. */
  lemma ComponentsMeet(g: Graph, s: set<Node>, c: seq<Node>, d: seq<Node>, x: Node)
    requires Valid(g) && IsComponent(g, s, c) && IsComponent(g, s, d)
    requires x in c && x in d
    ensures Elems(c) == Elems(d)
  {
    var m :| 0 <= m < |c| && c[m] == x;
    var n :| 0 <= n < |d| && d[n] == x;
    ChainInsideClosed(g, s, c, Elems(d), m);
    ChainInsideClosed(g, s, d, Elems(c), n);
  }

  /** Appending a neighbour of a node already in a connected chain keeps it connected. */
  lemma ChainedAppend(g: Graph, c: seq<Node>, k: nat, v: Node)
    requires Chained(g, c) && k < |c| && (c[k], v) in g.adj
    ensures Chained(g, c + [v])
  {
    var c' := c + [v];
    forall j | 0 < j < |c'| ensures LinkedBack(g, c', j) {
      if j < |c| {
        assert LinkedBack(g, c, j);
        var i :| 0 <= i < j && (c[i], c[j]) in g.adj;
        assert c'[i] == c[i] && c'[j] == c[j];
      } else {
        assert c'[k] == c[k] && c'[j] == v;
      }
    }
  }

  /** One step of the search: append the unseen listed neighbours of c[k]. */
  method ScanNeighbours(g: Graph, listed: seq<Node>, c: seq<Node>, k: nat) returns (c': seq<Node>)
    requires k < |c| && Distinct(c) && Chained(g, c)
    requires forall i :: 0 <= i < |c| ==> c[i] in Present(g, listed)
    ensures |c| <= |c'| && c'[..|c|] == c
    ensures Distinct(c') && Chained(g, c')
    ensures forall i :: 0 <= i < |c'| ==> c'[i] in Present(g, listed)
    ensures forall v :: v in Present(g, listed) && (c[k], v) in g.adj ==> v in c'
  {
    ghost var s := Present(g, listed);
    var u := c[k];
    c' := c;
    var idx := 0;
    while idx < |listed|
      invariant 0 <= idx <= |listed|
      invariant |c| <= |c'| && c'[..|c|] == c && c'[k] == u
      invariant Distinct(c') && Chained(g, c')
      invariant forall i :: 0 <= i < |c'| ==> c'[i] in s
      invariant forall m :: 0 <= m < idx && listed[m] in g.nodes && (u, listed[m]) in g.adj ==> listed[m] in c'
    {
      var v := listed[idx];
      if v in g.nodes && (u, v) in g.adj && v !in c' {
        ChainedAppend(g, c', k, v);
        c' := c' + [v];
      }
      idx := idx + 1;
    }
    forall v | v in s && (u, v) in g.adj ensures v in c' {
      var m :| 0 <= m < |listed| && listed[m] == v;
    }
  }

  /** A component that meets another contains the other's first node. */
  lemma MeetingReachesStart(g: Graph, s: set<Node>, d: seq<Node>, c: seq<Node>, y: Node)
    requires Valid(g) && IsComponent(g, s, d) && IsComponent(g, s, c) && y in d
    ensures y in c ==> c[0] in d
  {
    if y in c {
      ComponentsMeet(g, s, d, c, y);
      assert c[0] in Elems(c);
    }
  }

  /** Breadth-first search from x inside the subgraph induced on the listed names. */
  method Explore(g: Graph, listed: seq<Node>, x: Node) returns (c: seq<Node>)
    requires x in Present(g, listed)
    ensures IsComponent(g, Present(g, listed), c) && c[0] == x
  {
    ghost var s := Present(g, listed);
    c := [x];
    var k := 0;
    while k < |c|
      invariant 0 <= k <= |c| <= |s|
      invariant c[0] == x && Distinct(c)
      invariant forall i :: 0 <= i < |c| ==> c[i] in s
      invariant Chained(g, c)
      invariant forall i, v :: 0 <= i < k && v in s && (c[i], v) in g.adj ==> v in c
      decreases |s| - |c|, |c| - k
    {
      var c' := ScanNeighbours(g, listed, c, k);
      forall v | v in c ensures v in c' {
        assert c'[..|c|] == c;
      }
      DistinctBound(c', s);
      c, k := c', k + 1;
    }
    forall u, v | u in Elems(c) && v in s && (u, v) in g.adj ensures v in Elems(c) {
      var i :| 0 <= i < |c| && c[i] == u;
    }
  }

  /** A repetition-free sequence drawn from s is no longer than s is large. */
  lemma DistinctBound(c: seq<Node>, s: set<Node>)
    requires Distinct(c) && forall i :: 0 <= i < |c| ==> c[i] in s
    ensures |c| <= |s|
  {
    DistinctCard(c);
    var rest := s - Elems(c);
    assert s == Elems(c) + rest && Elems(c) * rest == {};
  }

  lemma {:induction false} DistinctCard(c: seq<Node>)
    requires Distinct(c)
    ensures |Elems(c)| == |c|
    decreases |c|
  {
    if |c| > 0 {
      var n := |c| - 1;
      DistinctCard(c[..n]);
      assert Elems(c) == Elems(c[..n]) + {c[n]};
      assert c[n] !in Elems(c[..n]);
    }
  }

  /**
   * `nx.connected_components(G.subgraph(listed))`: the components of the subgraph
   * induced on the listed names present in g, each once.
   */
  method ConnectedComponents(g: Graph, listed: seq<Node>) returns (comps: seq<seq<Node>>)
    requires Valid(g)
    ensures IsComponentPartition(g, Present(g, listed), comps)
  {
    ghost var s := Present(g, listed);
    comps := [];
    var i := 0;
    while i < |listed|
      invariant 0 <= i <= |listed|
      invariant forall a :: 0 <= a < |comps| ==> IsComponent(g, s, comps[a])
      invariant forall a, b, y :: 0 <= a < b < |comps| && y in comps[a] ==> y !in comps[b]
      invariant forall m :: 0 <= m < i && listed[m] in g.nodes ==> Covered(comps, listed[m])
    {
      var x := listed[i];
      if x in g.nodes && !Covered(comps, x) {
        var c := Explore(g, listed, x);
        forall a, y | 0 <= a < |comps| && y in comps[a] ensures y !in c {
          MeetingReachesStart(g, s, comps[a], c, y);
          assert x in comps[a] ==> Covered(comps, x);
        }
        ghost var before := comps;
        comps := comps + [c];
        forall m | 0 <= m <= i && listed[m] in g.nodes ensures Covered(comps, listed[m]) {
          if m < i {
            var a :| 0 <= a < |before| && listed[m] in before[a];
            assert comps[a] == before[a];
          } else {
            assert listed[m] in comps[|before|];
          }
        }
      }
      i := i + 1;
    }
    forall y | y in s ensures exists a :: 0 <= a < |comps| && y in comps[a] {
      var m :| 0 <= m < |listed| && listed[m] == y;
      assert Covered(comps, listed[m]);
    }
  }

  /** The node sets of the components. */
  function ComponentSets(comps: seq<seq<Node>>): set<set<Node>>
  {
    set a | 0 <= a < |comps| :: Elems(comps[a])
  }

  /** Every node in some component. */
  function Union(comps: seq<seq<Node>>): set<Node>
  {
    set a, x | 0 <= a < |comps| && x in comps[a] :: x
  }

  ghost predicate NonEmptyDisjoint(comps: seq<seq<Node>>)
  {
    && (forall a :: 0 <= a < |comps| ==> |comps[a]| > 0 && Distinct(comps[a]))
    && (forall a, b, x :: 0 <= a < b < |comps| && x in comps[a] ==> x !in comps[b])
  }

  lemma {:induction false} DisjointSetsCount(comps: seq<seq<Node>>)
    requires NonEmptyDisjoint(comps)
    ensures |ComponentSets(comps)| == |comps|
    decreases |comps|
  {
    if |comps| > 0 {
      var n := |comps| - 1;
      var front := comps[..n];
      assert NonEmptyDisjoint(front);
      DisjointSetsCount(front);
      var last := Elems(comps[n]);
      assert ComponentSets(comps) == ComponentSets(front) + {last};
      assert last !in ComponentSets(front) by {
        var x := comps[n][0];
        assert x in last;
        forall a | 0 <= a < n ensures Elems(front[a]) != last {
          assert x !in front[a];
        }
      }
    }
  }

  lemma DisjointPrefix(comps: seq<seq<Node>>, n: nat)
    requires NonEmptyDisjoint(comps) && n <= |comps|
    ensures NonEmptyDisjoint(comps[..n])
  {
    assert forall a :: 0 <= a < n ==> comps[..n][a] == comps[a];
  }

  lemma UnionSnoc(comps: seq<seq<Node>>)
    requires |comps| > 0
    ensures Union(comps) == Union(comps[..|comps| - 1]) + Elems(comps[|comps| - 1])
  {
    var n := |comps| - 1;
    forall x | x in Union(comps) ensures x in Union(comps[..n]) + Elems(comps[n]) {
      var a :| 0 <= a < |comps| && x in comps[a];
      if a < n {
        assert x in comps[..n][a];
      }
    }
    forall x | x in Union(comps[..n]) ensures x in Union(comps) {
      var a :| 0 <= a < n && x in comps[..n][a];
      assert x in comps[a];
    }
  }

  lemma UnionLastDisjoint(comps: seq<seq<Node>>)
    requires NonEmptyDisjoint(comps) && |comps| > 0
    ensures Union(comps[..|comps| - 1]) * Elems(comps[|comps| - 1]) == {}
  {
    var n := |comps| - 1;
    forall x | x in Union(comps[..n]) ensures x !in comps[n] {
      var a :| 0 <= a < n && x in comps[..n][a];
      assert x in comps[a];
    }
  }

  lemma {:induction false} DisjointSizesSum(comps: seq<seq<Node>>)
    requires NonEmptyDisjoint(comps)
    ensures SumNat(Lengths(comps)) == |Union(comps)|
    decreases |comps|
  {
    if |comps| > 0 {
      var n := |comps| - 1;
      DisjointPrefix(comps, n);
      DisjointSizesSum(comps[..n]);
      UnionSnoc(comps);
      UnionLastDisjoint(comps);
      DistinctCard(comps[n]);
      assert Lengths(comps)[..n] == Lengths(comps[..n]);
    }
  }

  lemma {:induction false} ElemsCard(c: seq<Node>)
    ensures |Elems(c)| <= |c|
    decreases |c|
  {
    if |c| > 0 {
      var n := |c| - 1;
      ElemsCard(c[..n]);
      assert Elems(c) == Elems(c[..n]) + {c[n]};
    }
  }

  /**
   * The reported component sizes add up to the number of distinct listed names
   * present in the graph, which is at most the number of listed names; so there
   * are at most that many components.
   */
  lemma ComponentSizesBound(g: Graph, listed: seq<Node>, comps: seq<seq<Node>>)
    requires IsComponentPartition(g, Present(g, listed), comps)
    ensures SumNat(Lengths(comps)) == |Present(g, listed)| <= |listed|
    ensures |comps| <= |Present(g, listed)|
  {
    PartitionUnion(g, Present(g, listed), comps);
    assert NonEmptyDisjoint(comps);
    DisjointSizesSum(comps);
    LengthsAtLeastCount(comps);
    PresentBound(g, listed);
  }

  lemma PartitionUnion(g: Graph, s: set<Node>, comps: seq<seq<Node>>)
    requires IsComponentPartition(g, s, comps)
    ensures Union(comps) == s
  {
    forall x | x in s ensures x in Union(comps) {
      var a :| 0 <= a < |comps| && x in comps[a];
    }
    forall x | x in Union(comps) ensures x in s {
      var a :| 0 <= a < |comps| && x in comps[a];
      assert IsComponent(g, s, comps[a]);
    }
  }

  lemma PresentBound(g: Graph, listed: seq<Node>)
    ensures |Present(g, listed)| <= |listed|
  {
    ElemsCard(listed);
    var s := Present(g, listed);
    assert s <= Elems(listed);
    var rest := Elems(listed) - s;
    assert Elems(listed) == s + rest && s * rest == {};
  }

  lemma {:induction false} LengthsAtLeastCount(comps: seq<seq<Node>>)
    requires forall a :: 0 <= a < |comps| ==> |comps[a]| > 0
    ensures |comps| <= SumNat(Lengths(comps))
    decreases |comps|
  {
    if |comps| > 0 {
      var n := |comps| - 1;
      LengthsAtLeastCount(comps[..n]);
      assert Lengths(comps)[..n] == Lengths(comps[..n]);
    }
  }

  /**
   * The components of an induced subgraph are determined by the graph's edges:
   * any two partitions meeting the specification have the same node sets, and
   * hence as many components.
   */
  lemma PartitionUnique(g: Graph, s: set<Node>, p1: seq<seq<Node>>, p2: seq<seq<Node>>)
    requires Valid(g) && IsComponentPartition(g, s, p1) && IsComponentPartition(g, s, p2)
    ensures ComponentSets(p1) == ComponentSets(p2)
    ensures |p1| == |p2|
  {
    SetsIncluded(g, s, p1, p2);
    SetsIncluded(g, s, p2, p1);
    assert NonEmptyDisjoint(p1) && NonEmptyDisjoint(p2);
    DisjointSetsCount(p1);
    DisjointSetsCount(p2);
  }

  lemma SetsIncluded(g: Graph, s: set<Node>, p1: seq<seq<Node>>, p2: seq<seq<Node>>)
    requires Valid(g) && IsComponentPartition(g, s, p1) && IsComponentPartition(g, s, p2)
    ensures ComponentSets(p1) <= ComponentSets(p2)
  {
    forall c | c in ComponentSets(p1) ensures c in ComponentSets(p2) {
      var a :| 0 <= a < |p1| && c == Elems(p1[a]);
      var x := p1[a][0];
      assert x in s;
      var b :| 0 <= b < |p2| && x in p2[b];
      ComponentsMeet(g, s, p1[a], p2[b], x);
    }
  }

  /** Only which pairs are edges matters to the partition, never their weights. */
  lemma PartitionIgnoresWeights(g: Graph, h: Graph, s: set<Node>, comps: seq<seq<Node>>)
    requires g.adj.Keys == h.adj.Keys
    requires IsComponentPartition(g, s, comps)
    ensures IsComponentPartition(h, s, comps)
  {
    forall a | 0 <= a < |comps| ensures IsComponent(h, s, comps[a]) {
      var c := comps[a];
      assert IsComponent(g, s, c);
      forall k | 0 < k < |c| ensures LinkedBack(h, c, k) {
        assert LinkedBack(g, c, k);
        var j :| 0 <= j < k && (c[j], c[k]) in g.adj;
        assert (c[j], c[k]) in h.adj;
      }
    }
  }
}
