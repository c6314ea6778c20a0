/**
 * Choosing what to perturb: the orphan report, hub and anti-hub selection by
 * degree, the base names of the nodes to investigate and the growth of the
 * pathway list.
 */
module Selection {
  import opened Graphs
  import opened Text
  import opened NodeNames

  // ---------------------------------------------------------------------------
  // Orphans

  /** The nodes of `ns` (in order) that have degree zero in `g`. */
  function OrphansAmong(g: Graph, ns: seq<Node>): (r: seq<Node>)
    ensures forall x :: x in r <==> x in ns && Degree(g, x) == 0
    ensures |r| <= |ns|
  {
    if |ns| == 0 then []
    else
      var n := |ns| - 1;
      assert forall x :: x in ns <==> x in ns[..n] || x == ns[n];
      OrphansAmong(g, ns[..n]) + (if Degree(g, ns[n]) == 0 then [ns[n]] else [])
  }

  /** One more node of `ns` adds it to the orphans exactly when its degree is zero. */
  lemma OrphansStep(g: Graph, ns: seq<Node>, i: nat)
    requires i < |ns|
    ensures OrphansAmong(g, ns[..i + 1]) == OrphansAmong(g, ns[..i]) + (if Degree(g, ns[i]) == 0 then [ns[i]] else [])
  {
    assert ns[..i + 1][..i] == ns[..i];
  }

  /** `get_orphans`: walks the nodes in order and collects those of degree zero. */
  method GetOrphans(g: Graph) returns (orphans: seq<Node>)
    ensures orphans == OrphansAmong(g, g.nodes)
  {
    orphans := [];
    var i := 0;
    while i < |g.nodes|
      invariant 0 <= i <= |g.nodes|
      invariant orphans == OrphansAmong(g, g.nodes[..i])
    {
      OrphansStep(g, g.nodes, i);
      if Degree(g, g.nodes[i]) == 0 {
        orphans := orphans + [g.nodes[i]];
      }
      i := i + 1;
    }
    assert g.nodes[..i] == g.nodes;
  }

  /** The orphans are exactly the nodes no edge touches. */
  lemma OrphansIsolated(g: Graph, x: Node)
    requires Valid(g)
    ensures x in OrphansAmong(g, g.nodes) <==> x in g.nodes && forall v :: (x, v) !in g.adj
  {
    DegreeZeroIffIsolated(g, x);
  }

  // ---------------------------------------------------------------------------
  // Stable sort by degree

  /** `key` never decreases along `s`. */
  predicate SortedBy(s: seq<Node>, key: Node -> int)
  {
    forall i, j :: 0 <= i < j < |s| ==> key(s[i]) <= key(s[j])
  }

  /** The elements of `s` whose key is `k`, in order. */
  function WithKey(s: seq<Node>, key: Node -> int, k: int): seq<Node>
  {
    if |s| == 0 then [] else (if key(s[0]) == k then [s[0]] else []) + WithKey(s[1..], key, k)
  }

  /** Insert `x` into `s` before the first element whose key is not smaller. */
  function Insert(x: Node, s: seq<Node>, key: Node -> int): (r: seq<Node>)
    ensures |r| == |s| + 1
  {
    if |s| == 0 || key(x) <= key(s[0]) then [x] + s else [s[0]] + Insert(x, s[1..], key)
  }

  /**
   * `sorted(s, key=key)`, built by insertion from the back so that an element
   * lands in front of the later elements with the same key.
   */
  function SortBy(s: seq<Node>, key: Node -> int): (r: seq<Node>)
    ensures |r| == |s|
  {
    if |s| == 0 then [] else Insert(s[0], SortBy(s[1..], key), key)
  }

  lemma {:induction false} InsertSorted(x: Node, s: seq<Node>, key: Node -> int)
    requires SortedBy(s, key)
    ensures SortedBy(Insert(x, s, key), key)
  {
    if |s| > 0 && key(x) > key(s[0]) {
      InsertSorted(x, s[1..], key);
      InsertMultiset(x, s[1..], key);
      var r := Insert(x, s, key);
      forall j | 0 < j < |r| ensures key(s[0]) <= key(r[j]) {
        assert r[j] in multiset(Insert(x, s[1..], key));
        assert r[j] == x || r[j] in multiset(s[1..]);
      }
    }
  }

  lemma {:induction false} InsertMultiset(x: Node, s: seq<Node>, key: Node -> int)
    ensures multiset(Insert(x, s, key)) == multiset(s) + multiset{x}
  {
    if |s| > 0 && key(x) > key(s[0]) {
      InsertMultiset(x, s[1..], key);
      assert s == [s[0]] + s[1..];
    }
  }

  lemma {:induction false} WithKeyCons(y: Node, s: seq<Node>, key: Node -> int, k: int)
    ensures WithKey([y] + s, key, k) == (if key(y) == k then [y] else []) + WithKey(s, key, k)
  {
    assert ([y] + s)[1..] == s;
  }

  /** Inserting `x` adds it to the front of its own key's elements and changes no other key's. */
  lemma {:induction false} InsertWithKey(x: Node, s: seq<Node>, key: Node -> int, k: int)
    requires SortedBy(s, key)
    ensures WithKey(Insert(x, s, key), key, k) == (if key(x) == k then [x] else []) + WithKey(s, key, k)
  {
    if |s| == 0 || key(x) <= key(s[0]) {
      WithKeyCons(x, s, key, k);
    } else {
      InsertWithKey(x, s[1..], key, k);
      WithKeyCons(s[0], Insert(x, s[1..], key), key, k);
      assert s == [s[0]] + s[1..];
      WithKeyCons(s[0], s[1..], key, k);
    }
  }

  /** The result of `SortBy` is sorted. */
  lemma {:induction false} SortBySorted(s: seq<Node>, key: Node -> int)
    ensures SortedBy(SortBy(s, key), key)
  {
    if |s| > 0 {
      SortBySorted(s[1..], key);
      InsertSorted(s[0], SortBy(s[1..], key), key);
    }
  }

  /** `SortBy` is a permutation of its input. */
  lemma {:induction false} SortByPermutation(s: seq<Node>, key: Node -> int)
    ensures multiset(SortBy(s, key)) == multiset(s)
  {
    if |s| > 0 {
      SortByPermutation(s[1..], key);
      InsertMultiset(s[0], SortBy(s[1..], key), key);
      assert s == [s[0]] + s[1..];
    }
  }

  /** `SortBy` is stable: the elements with any one key keep their order. */
  lemma {:induction false} SortByStable(s: seq<Node>, key: Node -> int, k: int)
    ensures WithKey(SortBy(s, key), key, k) == WithKey(s, key, k)
  {
    if |s| > 0 {
      SortByStable(s[1..], key, k);
      SortBySorted(s[1..], key);
      InsertWithKey(s[0], SortBy(s[1..], key), key, k);
    }
  }

  /** `s[:k]`. */
  function Take(s: seq<Node>, k: nat): (r: seq<Node>)
    ensures |r| == if k <= |s| then k else |s|
    ensures r == s[..|r|]
  {
    if k <= |s| then s[..k] else s
  }

  /** The sort key `degree_dict[x]`. */
  function DegreeAscending(g: Graph): Node -> int
  {
    x => Degree(g, x) as int
  }

  /**
   * `reverse=True` keeps equal keys in their original order, so it sorts like
   * the negated key.
   */
  function DegreeDescending(g: Graph): Node -> int
  {
    x => -(Degree(g, x) as int)
  }

  /** `sorted(degree_dict, key=lambda x: degree_dict[x], reverse=True)[:koh]`. */
  function HubNodes(g: Graph, koh: nat): seq<Node>
  {
    Take(SortBy(g.nodes, DegreeDescending(g)), koh)
  }

  /** `sorted(degree_dict, key=lambda x: degree_dict[x])[:kob]`. */
  function AntiHubNodes(g: Graph, kob: nat): seq<Node>
  {
    Take(SortBy(g.nodes, DegreeAscending(g)), kob)
  }

  /** The first `k` of a sorted sequence have keys no larger than any key after them. */
  lemma TakeSortedBound(s: seq<Node>, key: Node -> int, k: nat, x: Node, y: Node)
    requires SortedBy(s, key)
    requires x in Take(s, k) && y in s && y !in Take(s, k)
    ensures key(x) <= key(y)
  {
    var t := Take(s, k);
    var i :| 0 <= i < |t| && t[i] == x;
    var j :| 0 <= j < |s| && s[j] == y;
  }

  /** Every hub has at least the degree of every node left out. */
  lemma HubsDominate(g: Graph, koh: nat, x: Node, y: Node)
    requires x in HubNodes(g, koh) && y in g.nodes && y !in HubNodes(g, koh)
    ensures Degree(g, x) >= Degree(g, y)
  {
    var key := DegreeDescending(g);
    var s := SortBy(g.nodes, key);
    SortBySorted(g.nodes, key);
    SortByPermutation(g.nodes, key);
    assert y in multiset(s) by {
      assert y in multiset(g.nodes);
    }
    TakeSortedBound(s, key, koh, x, y);
  }

  /** Every anti-hub has at most the degree of every node left out. */
  lemma AntiHubsDominated(g: Graph, kob: nat, x: Node, y: Node)
    requires x in AntiHubNodes(g, kob) && y in g.nodes && y !in AntiHubNodes(g, kob)
    ensures Degree(g, x) <= Degree(g, y)
  {
    var key := DegreeAscending(g);
    var s := SortBy(g.nodes, key);
    SortBySorted(g.nodes, key);
    SortByPermutation(g.nodes, key);
    assert y in multiset(s) by {
      assert y in multiset(g.nodes);
    }
    TakeSortedBound(s, key, kob, x, y);
  }

  /** Hubs come from the graph, at most `koh` of them, each node once. */
  lemma HubNodesShape(g: Graph, koh: nat)
    ensures |HubNodes(g, koh)| == if koh <= |g.nodes| then koh else |g.nodes|
    ensures forall x :: x in HubNodes(g, koh) ==> x in g.nodes
  {
    var s := SortBy(g.nodes, DegreeDescending(g));
    SortByPermutation(g.nodes, DegreeDescending(g));
    forall x | x in HubNodes(g, koh) ensures x in g.nodes {
      assert x in multiset(s);
    }
  }

  /** Nodes of equal degree are ranked in node order, so ties go to the earlier node. */
  lemma HubTiesKeepNodeOrder(g: Graph, d: nat)
    ensures WithKey(HubNodes(g, |g.nodes|), DegreeDescending(g), -(d as int)) == WithKey(g.nodes, DegreeDescending(g), -(d as int))
  {
    var sorted := SortBy(g.nodes, DegreeDescending(g));
    assert HubNodes(g, |g.nodes|) == sorted[..|sorted|] == sorted;
    SortByStable(g.nodes, DegreeDescending(g), -(d as int));
  }

  // ---------------------------------------------------------------------------
  // Nodes to investigate

  /** `[node.split('.')[0] for node in nodes]`. */
  function BaseNames(nodes: seq<Node>): (r: seq<string>)
    ensures |r| == |nodes| && forall k :: 0 <= k < |nodes| ==> r[k] == BaseName(nodes[k])
  {
    seq(|nodes|, k requires 0 <= k < |nodes| => BaseName(nodes[k]))
  }

  /**
   * `nodes_to_investigate_bases`: the base names of every node when `koh` is 0,
   * otherwise of the hubs followed by the anti-hubs.
   */
  function NodesToInvestigate(g: Graph, koh: nat, kob: nat): (r: seq<string>)
    ensures koh == 0 ==> |r| == |g.nodes|
    ensures forall k :: 0 <= k < |r| ==> '.' !in r[k]
  {
    if koh == 0 then BaseNames(g.nodes) else BaseNames(HubNodes(g, koh) + AntiHubNodes(g, kob))
  }

  /**
   * With `koh` 0 a gene present in both layers is listed twice, once from each
   * of its layer nodes, so it is knocked down twice.
   */
  lemma BothLayersListedTwice(g: Graph, b: string)
    requires Distinct(g.nodes) && '.' !in b
    requires LayerNode(b, ProteinSuffix) in g.nodes && LayerNode(b, TranscriptSuffix) in g.nodes
    ensures exists i, j :: 0 <= i < j < |g.nodes| && NodesToInvestigate(g, 0, 0)[i] == b
                                                  && NodesToInvestigate(g, 0, 0)[j] == b
  {
    var i :| 0 <= i < |g.nodes| && g.nodes[i] == LayerNode(b, ProteinSuffix);
    var j :| 0 <= j < |g.nodes| && g.nodes[j] == LayerNode(b, TranscriptSuffix);
    LayersDisjoint(b, b);
    BaseNameOfLayerNode(b, ProteinSuffix);
    BaseNameOfLayerNode(b, TranscriptSuffix);
    if i < j {
      assert NodesToInvestigate(g, 0, 0)[i] == b && NodesToInvestigate(g, 0, 0)[j] == b;
    } else {
      assert NodesToInvestigate(g, 0, 0)[j] == b && NodesToInvestigate(g, 0, 0)[i] == b;
    }
  }

  // ---------------------------------------------------------------------------
  // Pathway list

  /** `if args.koh == 0: args.koh = 1000000000000`: zero means no limit. */
  function PathwayLimit(koh: nat): nat
  {
    if koh == 0 then 1000000000000 else koh
  }

  /** The names of `cs` not in `seen`, each at its first occurrence, in order. */
  function Fresh(cs: seq<string>, seen: seq<string>): (r: seq<string>)
    ensures forall x :: x in r <==> x in cs && x !in seen
    ensures Distinct(r)
  {
    if |cs| == 0 then []
    else
      var n := |cs| - 1;
      var front := Fresh(cs[..n], seen);
      assert forall x :: x in cs <==> x in cs[..n] || x == cs[n];
      if cs[n] in seen || cs[n] in front then front else front + [cs[n]]
  }

  /** One more candidate: `Fresh` grows by it exactly when it is new. */
  lemma FreshStep(cs: seq<string>, seen: seq<string>, i: nat)
    requires i < |cs|
    ensures var front := Fresh(cs[..i], seen);
      Fresh(cs[..i + 1], seen) == if cs[i] in seen || cs[i] in front then front else front + [cs[i]]
  {
    assert cs[..i + 1][..i] == cs[..i];
  }

  /** The fresh names of a prefix of `cs` are a prefix of the fresh names of `cs`. */
  lemma {:induction false} FreshPrefix(cs: seq<string>, seen: seq<string>, i: nat)
    requires i <= |cs|
    ensures var f := Fresh(cs[..i], seen);
      |f| <= |Fresh(cs, seen)| && Fresh(cs, seen)[..|f|] == f
    decreases |cs| - i
  {
    if i < |cs| {
      var n := |cs| - 1;
      FreshPrefix(cs[..n], seen, i);
      assert cs[..n][..i] == cs[..i];
    } else {
      assert cs[..i] == cs;
    }
  }

  /**
   * The list `pathways` extended as the loop over the candidates extends it:
   * the fresh candidates in order, as many as fit below `limit`.
   */
  function Extended(pathways: seq<string>, candidates: seq<string>, limit: nat): seq<string>
  {
    if |pathways| < limit then pathways + Take(Fresh(candidates, pathways), limit - |pathways|) else pathways
  }

  /**
   * The extended list keeps the old names as a prefix, stays within the limit,
   * appends only new candidates, keeps the names distinct, and holds every
   * candidate when it stays below the limit.
   */
  lemma ExtendedProperties(pathways: seq<string>, candidates: seq<string>, limit: nat)
    ensures var r := Extended(pathways, candidates, limit);
      && |pathways| <= |r| && r[..|pathways|] == pathways
      && |r| <= (if |pathways| <= limit then limit else |pathways|)
      && (forall k :: |pathways| <= k < |r| ==> r[k] in candidates && r[k] !in pathways)
      && (Distinct(pathways) ==> Distinct(r))
      && (|r| < limit ==> forall c :: c in candidates ==> c in r)
  {
    var r := Extended(pathways, candidates, limit);
    if |pathways| < limit {
      var f := Fresh(candidates, pathways);
      var t := Take(f, limit - |pathways|);
      assert r == pathways + t;
      assert r[..|pathways|] == pathways;
      forall k | |pathways| <= k < |r| ensures r[k] in candidates && r[k] !in pathways {
        assert r[k] == t[k - |pathways|] == f[k - |pathways|];
      }
      if Distinct(pathways) {
        forall a, b | 0 <= a < b < |r| ensures r[a] != r[b] {
          if b >= |pathways| {
            assert r[b] == f[b - |pathways|] && r[b] !in pathways;
            if a >= |pathways| {
              assert r[a] == f[a - |pathways|];
            } else {
              assert r[a] in pathways;
            }
          }
        }
      }
      if |r| < limit {
        assert t == f;
        forall c | c in candidates ensures c in r {
          if c !in pathways {
            assert c in f;
          }
        }
      }
    }
  }

  /** With room for two, the first two fresh candidates are taken, in list order. */
  lemma ExtendedInOrder()
    ensures Extended([], ["a", "b", "c"], 2) == ["a", "b"]
  {
    var cs: seq<string> := ["a", "b", "c"];
    assert cs[..0] == [];
    FreshStep(cs, [], 0);
    FreshStep(cs, [], 1);
    assert "b" != "a";
    FreshPrefix(cs, [], 2);
  }

  /**
   * Adds candidate pathways in order, skipping those already listed, and stops
   * as soon as the list holds `PathwayLimit(koh)` names.
   */
  method ExtendPathways(pathways: seq<string>, candidates: seq<string>, koh: nat) returns (r: seq<string>)
    ensures |pathways| < PathwayLimit(koh) ==>
      r == pathways + Take(Fresh(candidates, pathways), PathwayLimit(koh) - |pathways|)
    ensures |pathways| >= PathwayLimit(koh) ==> r == pathways
    ensures r == Extended(pathways, candidates, PathwayLimit(koh))
  {
    var limit := PathwayLimit(koh);
    r := pathways;
    var i := 0;
    assert candidates[..0] == [];
    while i < |candidates|
      invariant 0 <= i <= |candidates|
      invariant r == pathways + Fresh(candidates[..i], pathways)
      invariant |pathways| >= limit ==> i == 0
      invariant |pathways| < limit ==> |r| <= limit
    {
      if |r| >= limit {
        break;
      }
      FreshStep(candidates, pathways, i);
      if candidates[i] !in r {
        r := r + [candidates[i]];
      }
      i := i + 1;
    }
    FreshPrefix(candidates, pathways, i);
    assert |r| < limit ==> candidates[..i] == candidates;
  }
}
