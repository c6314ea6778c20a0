/**
 * `run_knockout_analysis`: for one target (a gene, a pathway or a number of
 * random nodes) and every reduction value, knock the target down in both
 * subtype graphs, diffuse with the kernel at every time point and record the
 * graph diffusion distances.
 *
 * The kernel is a parameter (the source computes it by eigendecomposition),
 * matrices are compared by the squared Frobenius distance, and the maxima are
 * taken over those squared distances.
 */
module Analysis {
  import opened Wrappers
  import opened Graphs
  import opened Laplacians
  import opened Components
  import opened NodeNames
  import opened Perturbation
  import opened ResultKeys

  lemma Square(d: real)
    ensures d * d >= 0.0
    ensures d != 0.0 ==> d * d > 0.0
  {
    if d < 0.0 {
      var e := 0.0 - d;
      assert e * e > 0.0;
      assert d * d == e * e;
    }
  }

  /** Squared Euclidean distance of two rows of equal length. */
  function RowSqDistance(x: seq<real>, y: seq<real>): (r: real)
    requires |x| == |y|
    ensures r >= 0.0
  {
    if |x| == 0 then 0.0
    else
      var n := |x| - 1;
      Square(x[n] - y[n]);
      RowSqDistance(x[..n], y[..n]) + (x[n] - y[n]) * (x[n] - y[n])
  }

  predicate SameShape(a: Matrix, b: Matrix)
  {
    |a| == |b| && forall i :: 0 <= i < |a| ==> |a[i]| == |b[i]|
  }

  /** `np.linalg.norm(a - b, ord='fro') ** 2`. */
  function SqDistance(a: Matrix, b: Matrix): (r: real)
    requires SameShape(a, b)
    ensures r >= 0.0
  {
    if |a| == 0 then 0.0
    else
      var n := |a| - 1;
      SqDistance(a[..n], b[..n]) + RowSqDistance(a[n], b[n])
  }

  lemma {:induction false} RowSqDistanceSelf(x: seq<real>)
    ensures RowSqDistance(x, x) == 0.0
  {
    if |x| > 0 {
      RowSqDistanceSelf(x[..|x| - 1]);
    }
  }

  /** A kernel is at distance zero from itself. */
  lemma {:induction false} SqDistanceSelf(a: Matrix)
    ensures SameShape(a, a) && SqDistance(a, a) == 0.0
  {
    if |a| > 0 {
      var n := |a| - 1;
      SqDistanceSelf(a[..n]);
      RowSqDistanceSelf(a[n]);
    }
  }

  lemma {:induction false} RowSqDistanceSymmetric(x: seq<real>, y: seq<real>)
    requires |x| == |y|
    ensures RowSqDistance(x, y) == RowSqDistance(y, x)
  {
    if |x| > 0 {
      RowSqDistanceSymmetric(x[..|x| - 1], y[..|x| - 1]);
    }
  }

  /** The distance does not depend on the order of its arguments. */
  lemma {:induction false} SqDistanceSymmetric(a: Matrix, b: Matrix)
    requires SameShape(a, b)
    ensures SqDistance(a, b) == SqDistance(b, a)
  {
    if |a| > 0 {
      var n := |a| - 1;
      SqDistanceSymmetric(a[..n], b[..n]);
      RowSqDistanceSymmetric(a[n], b[n]);
    }
  }

  /** `np.max` of a non-empty series: an element that no element exceeds. */
  function MaxOf(s: seq<real>): (m: real)
    requires |s| > 0
    ensures forall k :: 0 <= k < |s| ==> s[k] <= m
    ensures exists k :: 0 <= k < |s| && s[k] == m
  {
    if |s| == 1 then s[0]
    else
      var rest := MaxOf(s[1..]);
      assert forall k :: 1 <= k < |s| ==> s[k] == s[1..][k - 1];
      if s[0] >= rest then s[0] else rest
  }

  /** `[kernel(L, t) for t in t_values]`. */
  function Kernels(l: Matrix, ts: seq<real>, kernel: (Matrix, real) -> Matrix): (ks: seq<Matrix>)
    ensures |ks| == |ts| && forall k :: 0 <= k < |ts| ==> ks[k] == kernel(l, ts[k])
  {
    seq(|ts|, k requires 0 <= k < |ts| => kernel(l, ts[k]))
  }

  /**
   * The distance at every time point between two kernel series; `None` where
   * numpy would refuse to subtract them (different lengths or shapes).
   */
  function DistanceSeries(xs: seq<Matrix>, ys: seq<Matrix>): (r: Option<seq<real>>)
    ensures r.Some? <==> |xs| == |ys| && forall k :: 0 <= k < |xs| ==> SameShape(xs[k], ys[k])
    ensures r.Some? ==> |r.value| == |xs|
    ensures r.Some? ==>
      forall k :: 0 <= k < |xs| ==> SameShape(xs[k], ys[k]) && r.value[k] == SqDistance(xs[k], ys[k])
  {
    if |xs| == |ys| && forall k :: 0 <= k < |xs| ==> SameShape(xs[k], ys[k]) then
      Some(seq(|xs|, k requires 0 <= k < |xs| => SqDistance(xs[k], ys[k])))
    else None
  }

  /** What one reduction value records. */
  datatype Entry =
    | Detailed(gddTrans: seq<real>, gddDisrupt: seq<real>, maxTrans: real, maxDisrupt: real)
    | MaxOnly(maxTrans: real, maxDisrupt: real)

  datatype AnalysisError =
    | MissingLayerNode(name: Node)   // `G[node]` on a node that is not there
    | RunIndexOutOfRange(index: nat) // `unique_node_combinations[run_index]`
    | ShapeMismatch                  // kernels numpy cannot subtract
    | NoTimePoints                   // `np.max` of an empty series

  /** The fixed inputs of the sweep. */
  datatype Setup = Setup(
    aggressive: Graph,                    // `G_aggro`
    stable: Graph,                        // `G_stable`
    times: seq<real>,                     // `t_values`
    kernel: (Matrix, real) -> Matrix,     // the diffusion kernel at time t
    origAggressive: seq<Matrix>,          // `orig_aggro_kernel`
    table: seq<PathwayRow>)               // `pathway_df`

  /** What is knocked down. */
  datatype Target =
    | NodeRun(base: string)            // `runtype_node`: both layer nodes of a gene
    | PathwayRun(description: string)  // `runtype_pathway`: every gene of a pathway
    | RandomRun(numNodes: nat)         // `runtype_random`: listed random node tuples

  /**
   * The knocked-down copy of `g` for `target` (`nodeList` is the random tuple of
   * the run).
   */
  function KnockedDown(g: Graph, table: seq<PathwayRow>, target: Target, nodeList: seq<Node>, w: real)
    : (r: Result<Graph, AnalysisError>)
    ensures r.Success? ==> r.value.nodes == g.nodes && r.value.adj.Keys == g.adj.Keys
    ensures r.Failure? <==> (target.NodeRun? &&
      (LayerNode(target.base, ProteinSuffix) !in g.nodes || LayerNode(target.base, TranscriptSuffix) !in g.nodes))
  {
    match target
    case NodeRun(base) =>
      var p, t := LayerNode(base, ProteinSuffix), LayerNode(base, TranscriptSuffix);
      if p !in g.nodes then Failure(MissingLayerNode(p))
      else if t !in g.nodes then Failure(MissingLayerNode(t))
      else Success(ReduceWeights(g, {p, t}, w))
    case PathwayRun(description) =>
      Success(ReduceWeights(g, Elems(PathwayTargets(PathwayGenes(table, description))), w))
    case RandomRun(_) =>
      Success(ReduceWeights(g, Elems(nodeList), w))
  }

  /**
   * The entry for one reduction value: the distance between the two knocked-down
   * subtypes (`gdd_values_trans`) and between the original and the knocked-down
   * aggressive subtype (`gdd_values_disrupt`) at every time point, and their
   * maxima; random runs keep only the maxima.
   */
  function EntryFor(s: Setup, target: Target, nodeList: seq<Node>, w: real): (r: Result<Entry, AnalysisError>)
    ensures r.Success? ==> r.value.Detailed? == !target.RandomRun?
    ensures r.Success? && r.value.Detailed? ==>
      && |r.value.gddTrans| == |r.value.gddDisrupt| == |s.times| > 0
      && (forall k :: 0 <= k < |s.times| ==> r.value.gddTrans[k] <= r.value.maxTrans)
      && (forall k :: 0 <= k < |s.times| ==> r.value.gddDisrupt[k] <= r.value.maxDisrupt)
    ensures r.Success? ==> r.value.maxTrans >= 0.0 && r.value.maxDisrupt >= 0.0
  {
    match KnockedDown(s.aggressive, s.table, target, nodeList, w)
    case Failure(e) => Failure(e)
    case Success(hA) =>
      match KnockedDown(s.stable, s.table, target, nodeList, w)
      case Failure(e) => Failure(e)
      case Success(hS) =>
        var kA := Kernels(Laplacian(hA), s.times, s.kernel);
        var kS := Kernels(Laplacian(hS), s.times, s.kernel);
        match (DistanceSeries(kS, kA), DistanceSeries(s.origAggressive, kA))
        case (Some(trans), Some(disrupt)) =>
          if |s.times| == 0 then Failure(NoTimePoints)
          else
            var mT, mD := MaxOf(trans), MaxOf(disrupt);
            assert mT >= 0.0 by { assert trans[0] >= 0.0; }
            assert mD >= 0.0 by { assert disrupt[0] >= 0.0; }
            if target.RandomRun? then Success(MaxOnly(mT, mD))
            else Success(Detailed(trans, disrupt, mT, mD))
        case _ => Failure(ShapeMismatch)
  }

  /** An unknown pathway knocks nothing down, so the aggressive subtype is not disrupted. */
  lemma UnknownPathwayNoDisruption(s: Setup, description: string, w: real)
    requires forall k :: 0 <= k < |s.table| ==> s.table[k].description != description
    requires s.origAggressive == Kernels(Laplacian(s.aggressive), s.times, s.kernel)
    requires EntryFor(s, PathwayRun(description), [], w).Success?
    ensures var e := EntryFor(s, PathwayRun(description), [], w).value;
      e.maxDisrupt == 0.0 && forall k :: 0 <= k < |e.gddDisrupt| ==> e.gddDisrupt[k] == 0.0
  {
    assert PathwayGenes(s.table, description) == [];
    ReduceNothing(s.aggressive, w);
    assert Elems(PathwayTargets([])) == {};
    var kA := Kernels(Laplacian(s.aggressive), s.times, s.kernel);
    forall k | 0 <= k < |kA| ensures SameShape(kA[k], kA[k]) && SqDistance(kA[k], kA[k]) == 0.0 {
      SqDistanceSelf(kA[k]);
    }
  }

  /** Two identical subtypes stay identical under the same knockdown: no transition. */
  lemma IdenticalSubtypesNoTransition(s: Setup, target: Target, nodeList: seq<Node>, w: real)
    requires s.stable == s.aggressive
    requires EntryFor(s, target, nodeList, w).Success?
    ensures EntryFor(s, target, nodeList, w).value.maxTrans == 0.0
    ensures var e := EntryFor(s, target, nodeList, w).value;
      e.Detailed? ==> forall k :: 0 <= k < |e.gddTrans| ==> e.gddTrans[k] == 0.0
  {
    var hA := KnockedDown(s.aggressive, s.table, target, nodeList, w).value;
    var kA := Kernels(Laplacian(hA), s.times, s.kernel);
    forall k | 0 <= k < |kA| ensures SameShape(kA[k], kA[k]) && SqDistance(kA[k], kA[k]) == 0.0 {
      SqDistanceSelf(kA[k]);
    }
  }

  /** One subtype graph knocked down through the perturbation routines. */
  method KnockDownSubtype(g: Graph, table: seq<PathwayRow>, target: Target, nodeList: seq<Node>, w: real)
    returns (r: Result<Graph, AnalysisError>)
    requires Valid(g)
    ensures r == KnockedDown(g, table, target, nodeList, w)
  {
    match target
    case NodeRun(base) =>
      var res := KnockdownNodeBothLayers(g, base, w);
      if res.Failure? {
        r := Failure(MissingLayerNode(res.error.name));
      } else {
        r := Success(res.value.0);
      }
    case PathwayRun(description) =>
      var genes := GatherPathwayGenes(table, description);
      var h, _, _, _, _ := KnockdownPathwayNodes(g, genes, w);
      r := Success(h);
    case RandomRun(_) =>
      var h, _, _, _, _ := KnockdownRandomNodes(g, nodeList, w);
      r := Success(h);
  }

  /** The loop body of `run_knockout_analysis` for one reduction value. */
  method MeasureReduction(s: Setup, target: Target, nodeList: seq<Node>, w: real) returns (r: Result<Entry, AnalysisError>)
    requires Valid(s.aggressive) && Valid(s.stable)
    ensures r == EntryFor(s, target, nodeList, w)
  {
    var a := KnockDownSubtype(s.aggressive, s.table, target, nodeList, w);
    if a.Failure? {
      return Failure(a.error);
    }
    var b := KnockDownSubtype(s.stable, s.table, target, nodeList, w);
    if b.Failure? {
      return Failure(b.error);
    }
    var kA := Kernels(Laplacian(a.value), s.times, s.kernel);
    var kS := Kernels(Laplacian(b.value), s.times, s.kernel);
    var trans := DistanceSeries(kS, kA);
    var disrupt := DistanceSeries(s.origAggressive, kA);
    if trans.None? || disrupt.None? {
      return Failure(ShapeMismatch);
    }
    if |s.times| == 0 {
      return Failure(NoTimePoints);
    }
    var mT, mD := MaxOf(trans.value), MaxOf(disrupt.value);
    if target.RandomRun? {
      r := Success(MaxOnly(mT, mD));
    } else {
      r := Success(Detailed(trans.value, disrupt.value, mT, mD));
    }
  }

  /** Measuring a reduction value for a fixed target and node tuple. */
  function Outcome(s: Setup, target: Target, nodeList: seq<Node>): (f: real -> Result<Entry, AnalysisError>)
    ensures forall w :: f(w) == EntryFor(s, target, nodeList, w)
  {
    w => EntryFor(s, target, nodeList, w)
  }

  /** `m` holds, for every reduction value of `reds`, the entry `f` measures for it. */
  ghost predicate RecordedBy(m: map<real, Entry>, f: real -> Result<Entry, AnalysisError>, reds: seq<real>)
  {
    && m.Keys == (set w | w in reds)
    && forall w :: w in m ==> f(w) == Success(m[w])
  }

  /** `m` holds, for every reduction value of `reds`, the entry measured with it. */
  ghost predicate Recorded(m: map<real, Entry>, s: Setup, target: Target, nodeList: seq<Node>, reds: seq<real>)
  {
    RecordedBy(m, Outcome(s, target, nodeList), reds)
  }

  /** The first reduction value of `reds` whose measurement fails, fails with `err`. */
  ghost predicate FailsFirstBy(f: real -> Result<Entry, AnalysisError>, reds: seq<real>, err: AnalysisError)
  {
    exists k :: 0 <= k < |reds| && f(reds[k]) == Failure(err) && forall j :: 0 <= j < k ==> f(reds[j]).Success?
  }

  ghost predicate FailsFirstWith(s: Setup, target: Target, nodeList: seq<Node>, reds: seq<real>, err: AnalysisError)
  {
    FailsFirstBy(Outcome(s, target, nodeList), reds, err)
  }

  /** Nothing is recorded before the first reduction value. */
  lemma RecordedStart(f: real -> Result<Entry, AnalysisError>, reds: seq<real>)
    ensures RecordedBy(map[], f, reds[..0])
  {
    assert reds[..0] == [];
  }

  /** Recording one more measured reduction value extends the record. */
  lemma RecordedSnoc(m: map<real, Entry>, f: real -> Result<Entry, AnalysisError>, reds: seq<real>, w: real, e: Entry)
    requires RecordedBy(m, f, reds) && f(w) == Success(e)
    ensures RecordedBy(m[w := e], f, reds + [w])
  {
    var m' := m[w := e];
    assert m'.Keys == (set v | v in reds + [w]) by {
      assert (set v | v in reds + [w]) == (set v | v in reds) + {w};
    }
    forall v | v in m' ensures f(v) == Success(m'[v]) {
      if v != w {
        assert v in m;
      }
    }
  }

  /** The loop step: the record of `reds[..i]` plus `reds[i]` is the record of `reds[..i + 1]`. */
  lemma RecordedStep(m: map<real, Entry>, f: real -> Result<Entry, AnalysisError>, reds: seq<real>, i: nat, e: Entry)
    requires i < |reds| && RecordedBy(m, f, reds[..i]) && f(reds[i]) == Success(e)
    ensures RecordedBy(m[reds[i] := e], f, reds[..i + 1])
  {
    assert reds[..i + 1] == reds[..i] + [reds[i]];
    RecordedSnoc(m, f, reds[..i], reds[i], e);
  }

  /** A recorded sweep measured every reduction value successfully. */
  lemma RecordedSucceeds(m: map<real, Entry>, f: real -> Result<Entry, AnalysisError>, reds: seq<real>)
    requires RecordedBy(m, f, reds)
    ensures forall k :: 0 <= k < |reds| ==> f(reds[k]).Success?
  {
    forall k | 0 <= k < |reds| ensures f(reds[k]).Success? {
      var w := reds[k];
      assert w in reds;
      assert f(w) == Success(m[w]);
    }
  }

  /** After the last reduction value the record covers all of `reds`. */
  lemma RecordedAll(m: map<real, Entry>, f: real -> Result<Entry, AnalysisError>, reds: seq<real>)
    requires RecordedBy(m, f, reds[..|reds|])
    ensures RecordedBy(m, f, reds)
    ensures forall k :: 0 <= k < |reds| ==> f(reds[k]).Success?
  {
    assert reds[..|reds|] == reds;
    RecordedSucceeds(m, f, reds);
  }

  /** The sweep fails at `reds[i]` when it recorded everything before it. */
  lemma FirstFailure(m: map<real, Entry>, f: real -> Result<Entry, AnalysisError>, reds: seq<real>, i: nat, err: AnalysisError)
    requires i < |reds| && RecordedBy(m, f, reds[..i]) && f(reds[i]) == Failure(err)
    ensures !forall k :: 0 <= k < |reds| ==> f(reds[k]).Success?
    ensures FailsFirstBy(f, reds, err)
  {
    RecordedSucceeds(m, f, reds[..i]);
    forall j | 0 <= j < i ensures f(reds[j]).Success? {
      assert reds[..i][j] == reds[j];
    }
  }

  /**
   * The inner loop over `red_range`: every reduction value is measured in order
   * and stored under its value; the first failure aborts the sweep.
   */
  method SweepReductions(s: Setup, target: Target, nodeList: seq<Node>, reds: seq<real>)
    returns (r: Result<map<real, Entry>, AnalysisError>)
    requires Valid(s.aggressive) && Valid(s.stable)
    ensures r.Success? <==> forall k :: 0 <= k < |reds| ==> EntryFor(s, target, nodeList, reds[k]).Success?
    ensures r.Success? ==> Recorded(r.value, s, target, nodeList, reds)
    ensures r.Failure? ==> FailsFirstWith(s, target, nodeList, reds, r.error)
  {
    ghost var f := Outcome(s, target, nodeList);
    var m: map<real, Entry> := map[];
    var i := 0;
    RecordedStart(f, reds);
    while i < |reds|
      invariant 0 <= i <= |reds|
      invariant RecordedBy(m, f, reds[..i])
    {
      var e := MeasureReduction(s, target, nodeList, reds[i]);
      if e.Failure? {
        FirstFailure(m, f, reds, i, e.error);
        return Failure(e.error);
      }
      RecordedStep(m, f, reds, i, e.value);
      m := m[reds[i] := e.value];
      i := i + 1;
    }
    RecordedAll(m, f, reds);
    r := Success(m);
  }

  /** The key a gene or pathway run is stored under: the gene or the pathway description. */
  function TargetName(target: Target): string
    requires !target.RandomRun?
  {
    if target.NodeRun? then target.base else target.description
  }

  /**
   * `run_knockout_analysis` for a gene or a pathway: a single key, the target's
   * name, holding the sweep over `red_range`.
   */
  method RunTargetAnalysis(s: Setup, target: Target, reds: seq<real>)
    returns (r: Result<map<string, map<real, Entry>>, AnalysisError>)
    requires Valid(s.aggressive) && Valid(s.stable) && !target.RandomRun?
    ensures r.Success? <==> forall k :: 0 <= k < |reds| ==> EntryFor(s, target, [], reds[k]).Success?
    ensures r.Success? ==> r.value.Keys == {TargetName(target)}
    ensures r.Success? ==> Recorded(r.value[TargetName(target)], s, target, [], reds)
    ensures r.Failure? ==> exists k :: 0 <= k < |reds| && EntryFor(s, target, [], reds[k]) == Failure(r.error)
  {
    var sweep := SweepReductions(s, target, [], reds);
    if sweep.Failure? {
      return Failure(sweep.error);
    }
    r := Success(map[TargetName(target) := sweep.value]);
  }

  /** Every listed run index is a valid run, and every sweep of it succeeds. */
  ghost predicate RandomRunsSucceed(s: Setup, numNodes: nat, combos: seq<seq<Node>>, runIdx: seq<nat>, reds: seq<real>)
  {
    forall j :: 0 <= j < |runIdx| ==> (runIdx[j] < |combos|
      && forall k :: 0 <= k < |reds| ==> EntryFor(s, RandomRun(numNodes), combos[runIdx[j]], reds[k]).Success?)
  }

  /**
   * `run_knockout_analysis` for random runs: each listed run index selects its
   * node tuple from `combos`, and the sweep over `red_range` for that tuple is
   * stored under `random_{numNodes}_run_{index}`.
   */
  method RunRandomAnalysis(s: Setup, numNodes: nat, combos: seq<seq<Node>>, runIdx: seq<nat>, reds: seq<real>)
    returns (r: Result<map<string, map<real, Entry>>, AnalysisError>)
    requires Valid(s.aggressive) && Valid(s.stable)
    ensures r.Success? <==> RandomRunsSucceed(s, numNodes, combos, runIdx, reds)
    ensures r.Success? ==> r.value.Keys == (set i | i in runIdx :: RandomKey(numNodes, i))
    ensures r.Success? ==> forall i :: i in runIdx ==>
      i < |combos| && Recorded(r.value[RandomKey(numNodes, i)], s, RandomRun(numNodes), combos[i], reds)
    ensures r.Failure? && r.error.RunIndexOutOfRange? ==> r.error.index in runIdx && r.error.index >= |combos|
    ensures r.Failure? && !r.error.RunIndexOutOfRange? ==>
      exists i, k :: (i in runIdx && i < |combos| && 0 <= k < |reds|
        && EntryFor(s, RandomRun(numNodes), combos[i], reds[k]) == Failure(r.error))
  {
    var results: map<string, map<real, Entry>> := map[];
    var j := 0;
    while j < |runIdx|
      invariant 0 <= j <= |runIdx|
      invariant results.Keys == (set i | i in runIdx[..j] :: RandomKey(numNodes, i))
      invariant forall i :: i in runIdx[..j] ==>
        i < |combos| && Recorded(results[RandomKey(numNodes, i)], s, RandomRun(numNodes), combos[i], reds)
    {
      var index := runIdx[j];
      if index >= |combos| {
        r := Failure(RunIndexOutOfRange(index));
        assert !RandomRunsSucceed(s, numNodes, combos, runIdx, reds) by {
          assert runIdx[j] >= |combos|;
        }
        return;
      }
      var sweep := SweepReductions(s, RandomRun(numNodes), combos[index], reds);
      if sweep.Failure? {
        r := Failure(sweep.error);
        assert !RandomRunsSucceed(s, numNodes, combos, runIdx, reds) by {
          assert runIdx[j] == index;
        }
        return;
      }
      forall i | i in runIdx[..j] && RandomKey(numNodes, i) == RandomKey(numNodes, index)
        ensures i == index
      {
        RandomKeyInjective(numNodes, i, numNodes, index);
      }
      results := results[RandomKey(numNodes, index) := sweep.value];
      assert runIdx[..j + 1] == runIdx[..j] + [index];
      j := j + 1;
    }
    assert runIdx[..j] == runIdx;
    r := Success(results);
    forall n | 0 <= n < |runIdx|
      ensures runIdx[n] < |combos|
      ensures forall k :: 0 <= k < |reds| ==> EntryFor(s, RandomRun(numNodes), combos[runIdx[n]], reds[k]).Success?
    {
      assert runIdx[n] in runIdx;
      RecordedSucceeds(results[RandomKey(numNodes, runIdx[n])], Outcome(s, RandomRun(numNodes), combos[runIdx[n]]), reds);
    }
  }
}
