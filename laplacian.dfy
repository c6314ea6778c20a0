/**
 * `weighted_laplacian_matrix`: over the fixed node order, W is the weighted
 * adjacency matrix, D the diagonal of row sums of W, and L = D - W.
 */
module Laplacians {

  import opened Graphs

  type Matrix = seq<seq<real>>

  /** An n-by-n matrix. */
  predicate IsSquare(m: Matrix, n: nat)
  {
    |m| == n && forall i :: 0 <= i < n ==> |m[i]| == n
  }

  function Sum(s: seq<real>): real
  {
    if |s| == 0 then 0.0 else Sum(s[..|s| - 1]) + s[|s| - 1]
  }

  /** Entrywise difference of two vectors of equal length. */
  function Minus(a: seq<real>, b: seq<real>): (r: seq<real>)
    requires |a| == |b|
    ensures |r| == |a| && forall j :: 0 <= j < |a| ==> r[j] == a[j] - b[j]
  {
    seq(|a|, j requires 0 <= j < |a| => a[j] - b[j])
  }

  /** The vector of length n that holds x at position i and 0 elsewhere. */
  function OneHot(n: nat, i: nat, x: real): (r: seq<real>)
    ensures |r| == n && forall j :: 0 <= j < n ==> r[j] == (if j == i then x else 0.0)
  {
    seq(n, j => if j == i then x else 0.0)
  }

  lemma {:induction false} SumMinus(a: seq<real>, b: seq<real>)
    requires |a| == |b|
    ensures Sum(Minus(a, b)) == Sum(a) - Sum(b)
    decreases |a|
  {
    if |a| > 0 {
      var n := |a| - 1;
      SumMinus(a[..n], b[..n]);
      assert Minus(a, b)[..n] == Minus(a[..n], b[..n]);
    }
  }

  lemma {:induction false} SumOneHot(n: nat, i: nat, x: real)
    ensures Sum(OneHot(n, i, x)) == if i < n then x else 0.0
    decreases n
  {
    if n > 0 {
      SumOneHot(n - 1, i, x);
      assert OneHot(n, i, x)[..n - 1] == OneHot(n - 1, i, x);
    }
  }

  /** `nx.to_numpy_array(G, nodelist=node_order, weight='weight')`. */
  function Adjacency(g: Graph): (w: Matrix)
    ensures IsSquare(w, |g.nodes|)
    ensures forall i, j :: 0 <= i < |g.nodes| && 0 <= j < |g.nodes| ==>
              w[i][j] == WeightOf(g, g.nodes[i], g.nodes[j])
  {
    var n := |g.nodes|;
    seq(n, i requires 0 <= i < n => seq(n, j requires 0 <= j < n => WeightOf(g, g.nodes[i], g.nodes[j])))
  }

  /** The weighted Laplacian D - W of the graph over its node order. */
  function Laplacian(g: Graph): (l: Matrix)
    ensures IsSquare(l, |g.nodes|)
  {
    var w := Adjacency(g);
    var n := |g.nodes|;
    seq(n, i requires 0 <= i < n => Minus(OneHot(n, i, Sum(w[i])), w[i]))
  }

  /** The weights from row i to every OTHER node (the diagonal entry replaced by 0). */
  function OffDiagonal(row: seq<real>, i: nat): (r: seq<real>)
    ensures |r| == |row|
  {
    seq(|row|, j requires 0 <= j < |row| => if j == i then 0.0 else row[j])
  }

  function Column(m: Matrix, j: nat): seq<real>
    requires forall i :: 0 <= i < |m| ==> j < |m[i]|
  {
    seq(|m|, i requires 0 <= i < |m| => m[i][j])
  }

  /** Every row of the Laplacian sums to zero. */
  lemma LaplacianRowSumZero(g: Graph, i: nat)
    requires i < |g.nodes|
    ensures Sum(Laplacian(g)[i]) == 0.0
  {
    var w := Adjacency(g);
    var n := |g.nodes|;
    assert Laplacian(g)[i] == Minus(OneHot(n, i, Sum(w[i])), w[i]);
    SumMinus(OneHot(n, i, Sum(w[i])), w[i]);
    SumOneHot(n, i, Sum(w[i]));
  }

  /**
   * Each diagonal entry is the node's total weight to the other nodes, and each
   * off-diagonal entry is the negated edge weight (0 where there is no edge).
   */
  lemma LaplacianEntries(g: Graph, i: nat, j: nat)
    requires i < |g.nodes| && j < |g.nodes|
    ensures i == j ==> Laplacian(g)[i][i] == Sum(OffDiagonal(Adjacency(g)[i], i))
    ensures i != j ==> Laplacian(g)[i][j] == -WeightOf(g, g.nodes[i], g.nodes[j])
  {
    if i == j {
      LaplacianDiagonal(g, i);
    } else {
      LaplacianOffDiagonal(g, i, j);
    }
  }

  lemma LaplacianDiagonal(g: Graph, i: nat)
    requires i < |g.nodes|
    ensures Laplacian(g)[i][i] == Sum(OffDiagonal(Adjacency(g)[i], i))
  {
    var w := Adjacency(g);
    var n := |g.nodes|;
    assert OffDiagonal(w[i], i) == Minus(w[i], OneHot(n, i, w[i][i]));
    SumMinus(w[i], OneHot(n, i, w[i][i]));
    SumOneHot(n, i, w[i][i]);
  }

  lemma LaplacianOffDiagonal(g: Graph, i: nat, j: nat)
    requires i < |g.nodes| && j < |g.nodes| && i != j
    ensures Laplacian(g)[i][j] == -WeightOf(g, g.nodes[i], g.nodes[j])
  {
  }

  lemma LaplacianEntrySymmetric(g: Graph, i: nat, j: nat)
    requires Valid(g) && i < |g.nodes| && j < |g.nodes|
    ensures Laplacian(g)[i][j] == Laplacian(g)[j][i]
  {
    LaplacianEntries(g, i, j);
    LaplacianEntries(g, j, i);
  }

  /** L is symmetric whenever the weights are. */
  lemma LaplacianSymmetric(g: Graph)
    requires Valid(g)
    ensures forall i, j :: 0 <= i < |g.nodes| && 0 <= j < |g.nodes| ==>
              Laplacian(g)[i][j] == Laplacian(g)[j][i]
  {
    forall i, j | 0 <= i < |g.nodes| && 0 <= j < |g.nodes|
      ensures Laplacian(g)[i][j] == Laplacian(g)[j][i]
    {
      LaplacianEntrySymmetric(g, i, j);
    }
  }

  /** With symmetric weights every column of L sums to zero as well. */
  lemma LaplacianColumnSumZero(g: Graph, j: nat)
    requires Valid(g) && j < |g.nodes|
    ensures Sum(Column(Laplacian(g), j)) == 0.0
  {
    LaplacianSymmetric(g);
    assert Column(Laplacian(g), j) == Laplacian(g)[j];
    LaplacianRowSumZero(g, j);
  }
}
