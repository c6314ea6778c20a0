# Weighted multiplex diffusion: a verified model of the discrete core

`Diffusion/GDD_weighted_diffusion.py` works on a two-layer gene network. Each
gene has a protein node (`<gene>.p`) and a transcript node (`<gene>.t`). Edges
inside a layer come from inferred adjacency matrices. An interlayer edge joins
the two nodes of each gene present in both layers. The script builds this
multiplex graph for two cancer subtypes: an aggressive one and a stable one.
It then knocks down a target: a gene, the genes of a pathway, or a random set
of nodes. A knockdown sets the weight of every edge incident to a targeted node
to a reduction factor. For each factor it computes the weighted Laplacian, the
diffusion kernels at a series of times, and two squared Frobenius distances
between kernels (GDD values):

- the transition distance, between the knocked-down stable and aggressive
  kernels;
- the disruption distance, between the original and knocked-down aggressive
  kernels.

The work is split across MPI ranks, and the root rank merges the per-rank
result dictionaries.

This project models the discrete bookkeeping around the numerics:

- the graph and its invariant;
- the Laplacian;
- every knockdown and knockout;
- connected components of the targeted subgraph;
- layer suffixing, the multiplex builder and the re-weighting pass;
- the demonstration network;
- orphan detection, hub and anti-hub selection, and the nodes to investigate;
- the growth of the pathway list;
- the split of work across ranks;
- the result keys and their parser;
- the per-target and per-run analysis loops;
- the merge of result dictionaries.

A graph is a value, `Graph(nodes, adj)`:

- `nodes` is in insertion order;
- `adj` maps each ordered pair to its weight, and both orientations of an
  undirected edge are stored;
- `Graphs.Valid` says the nodes are distinct, every edge joins two nodes, and
  weights are symmetric.

Because the graph is a value, `G.copy()` followed by in-place updates becomes a
method that walks a local copy. Each such method is proved equal to a
specification function (`ReduceWeights`, `Isolate`, `Reweight`, `Multiplex`,
`MergeAll`, `EntryFor`), and the lemmas are stated about those functions.

The diffusion kernel (eigendecomposition and matrix exponential) is a function
parameter of the model. The distances are kept squared: the source's
`max(sqrt(x))` equals `sqrt(max(x))`, and the model records `max(x)`.

Two behaviours of the code are worth stating plainly:

- `distribute_runs` gives every rank `total // size` runs, and the last rank
  also takes the remainder (the comment at
  `Diffusion/GDD_weighted_diffusion.py:541` reads "Ensure the last rank takes
  any remaining runs"). `Distribution.RunsImbalanceExample` shows 7 runs over
  4 ranks split 1, 1, 1, 4.
- The root rank's merge (`Diffusion/GDD_weighted_diffusion.py:882-884`) is
  last-write-wins: a key present in two parts keeps the later value
  (`Merging.MergeAllLastWins`).

## Model

| member | source | states |
|---|---|---|
| Graphs.NeighborsIn | Diffusion/GDD_weighted_diffusion.py:147 | the neighbours of `u` are exactly the listed nodes adjacent to it, each once |
| Graphs.Degree | Diffusion/GDD_weighted_diffusion.py:452 | `G.degree(u)`: each neighbour once, a self-loop twice |
| Graphs.DegreeZeroIffIsolated | Diffusion/GDD_weighted_diffusion.py:449-454 | in a valid graph, degree 0 holds exactly when no edge leaves the node |
| Laplacians.Adjacency | Diffusion/GDD_weighted_diffusion.py:75-77 | `to_numpy_array` in node order: an n×n matrix whose entry (i, j) is the weight of edge (i, j), or 0 if there is none |
| Laplacians.Laplacian | Diffusion/GDD_weighted_diffusion.py:71-83 | `D - W` is square, of the graph's node count |
| Laplacians.LaplacianEntries | Diffusion/GDD_weighted_diffusion.py:77-81 | the diagonal holds the off-diagonal strength of the row; an off-diagonal entry is minus the edge weight |
| Laplacians.LaplacianRowSumZero | Diffusion/GDD_weighted_diffusion.py:71-83 | every row of the Laplacian sums to zero |
| Laplacians.LaplacianSymmetric | Diffusion/GDD_weighted_diffusion.py:71-83 | the Laplacian of a valid (undirected) graph is symmetric |
| Laplacians.LaplacianColumnSumZero | Diffusion/GDD_weighted_diffusion.py:71-83 | every column of the Laplacian of a valid graph sums to zero |
| Perturbation.ReduceWeights | Diffusion/GDD_weighted_diffusion.py:146-149 | every edge touching a target gets the weight `w`; the nodes and the edge set are kept |
| Perturbation.Isolate | Diffusion/GDD_weighted_diffusion.py:122-123 | the graph without the edges that touch a target; the nodes are kept and no edge is added |
| Perturbation.ReduceWeightsEffect | Diffusion/GDD_weighted_diffusion.py:146-149 | after a knockdown the graph is still valid, edges touching a target weigh `w`, and every other edge keeps its weight |
| Perturbation.ReduceWeightsIdempotent | Diffusion/GDD_weighted_diffusion.py:186-190 | knocking the same targets down twice changes nothing more |
| Perturbation.ReduceWeightsCompose | Diffusion/GDD_weighted_diffusion.py:180-190 | knocking down `a` then `b` equals knocking down `a ∪ b`, so the order of pathway genes is irrelevant |
| Perturbation.ReduceAbsent | Diffusion/GDD_weighted_diffusion.py:187 | a target that is not a node changes nothing |
| Perturbation.ReduceNothing | Diffusion/GDD_weighted_diffusion.py:177-193 | with no targets the graph is unchanged |
| Perturbation.IsolateEffect | Diffusion/GDD_weighted_diffusion.py:120-123 | after isolation no edge touches a target, every other edge survives with its weight, and the graph stays valid |
| Perturbation.ReduceIncident | Diffusion/GDD_weighted_diffusion.py:147-149 | the neighbour loop for one node equals `ReduceWeights` on that node |
| Perturbation.RemoveEdges | Diffusion/GDD_weighted_diffusion.py:123 | `remove_edges_from` removes both orientations of each listed edge and nothing else |
| Perturbation.IncidentEdges | Diffusion/GDD_weighted_diffusion.py:122 | `G.edges(nbunch)` lists exactly the edges leaving a node of the bunch |
| Perturbation.RemovingIncidentEdgesIsolates | Diffusion/GDD_weighted_diffusion.py:120-123 | removing the incident edges of the bunch is isolating the bunch |
| Perturbation.IsolateAbsent | Diffusion/GDD_weighted_diffusion.py:112-126 | isolating a name that is not a node changes nothing |
| Perturbation.ReducePresent | Diffusion/GDD_weighted_diffusion.py:222-229 | the loop over the targets reduces exactly the listed nodes that are present |
| Perturbation.KnockdownNodeBothLayers | Diffusion/GDD_weighted_diffusion.py:128-154 | fails with `MissingNode` naming the first of `b.p`, `b.t` that is absent (`G[node]` raises); otherwise both layer nodes are knocked down and the Laplacian is of the result |
| Perturbation.Suffixed | Diffusion/GDD_weighted_diffusion.py:196 | each base name gets the layer suffix, in order |
| Perturbation.PathwayTargets | Diffusion/GDD_weighted_diffusion.py:196 | twice as many targets as genes, and both layer nodes of every gene are among them |
| Perturbation.KnockdownPathwayNodes | Diffusion/GDD_weighted_diffusion.py:177-205 | knocks down both layer nodes of every gene; returns the Laplacian, a component partition of the present targets and a target count of twice the genes |
| Perturbation.KnockdownRandomNodes | Diffusion/GDD_weighted_diffusion.py:208-243 | knocks down the listed nodes that are present; returns the Laplacian, a component partition of the present listed nodes and the list length |
| Perturbation.ComponentsIgnoreReducedWeight | Diffusion/GDD_weighted_diffusion.py:195-201 | the components, their number and their sizes do not depend on the reduction factor, and the sizes sum to at most the number of targets |
| Perturbation.EmptyPathway | Diffusion/GDD_weighted_diffusion.py:167-205 | an unknown pathway leaves the graph unchanged and yields no components |
| Perturbation.PathwayGenes | Diffusion/GDD_weighted_diffusion.py:167-175 | the genes list is empty exactly when no row has the description; no gene contains the pipe separator |
| Perturbation.GatherPathwayGenes | Diffusion/GDD_weighted_diffusion.py:170-175 | the row loop collects exactly `PathwayGenes` |
| Perturbation.PathwayGenesOfOneRow | Diffusion/GDD_weighted_diffusion.py:175 | joining the split genes of a row with the pipe separator gives back the row's `genes` field |
| Perturbation.EdgeBunch | Diffusion/GDD_weighted_diffusion.py:122 | a node name is its own bunch; any other string is read as the one-character nodes it contains |
| Perturbation.KnockoutNodeAsWritten | Diffusion/GDD_weighted_diffusion.py:112-126 | the code as written: isolates the bunch `G.edges(name)` iterates |
| Perturbation.KnockoutStrayName | Diffusion/GDD_weighted_diffusion.py:122-123 | on nodes `a`, `b` with edge a–b, knocking out the non-node `ab` removes the edge |
| Perturbation.KnockoutNode | Diffusion/GDD_weighted_diffusion.py:112-126 | isolates exactly the named node, and a name that is not a node leaves the graph unchanged |
| Components.Explore | Diffusion/GDD_weighted_diffusion.py:197-198 | the search from `x` returns a component of the induced subgraph starting at `x` |
| Components.ConnectedComponents | Diffusion/GDD_weighted_diffusion.py:197-198 | the components partition the listed nodes present in the graph: disjoint, closed under edges, each connected |
| Components.ComponentsMeet | Diffusion/GDD_weighted_diffusion.py:198 | two components that share a node are the same set |
| Components.PartitionUnique | Diffusion/GDD_weighted_diffusion.py:198-201 | any two component partitions of the same node set have the same components and the same count |
| Components.ComponentSizesBound | Diffusion/GDD_weighted_diffusion.py:199-201 | the component sizes sum to the number of distinct listed nodes present, which is at most the list length, and there are no more components than such nodes |
| Components.PartitionIgnoresWeights | Diffusion/GDD_weighted_diffusion.py:197-198 | components depend only on which edges exist, not on their weights |
| Components.Lengths | Diffusion/GDD_weighted_diffusion.py:200 | one length per component, equal to its size |
| NodeNames.PreprocessNodeName | Diffusion/GDD_weighted_diffusion.py:416-420 | `preprocess_node_name`: drops a trailing `.p` or `.t`; the result is a prefix of the name |
| NodeNames.BaseName | Diffusion/GDD_weighted_diffusion.py:503 | `node.split('.')[0]`: the text before the first dot, which holds no dot |
| NodeNames.TwinName | Diffusion/GDD_weighted_diffusion.py:557 | `node.replace('.p', '.t')`: every `.p` replaced, left to right |
| NodeNames.PreprocessLayerNode | Diffusion/GDD_weighted_diffusion.py:416-420 | stripping `.p` or `.t` gives back the base name |
| NodeNames.BaseNameOfLayerNode | Diffusion/GDD_weighted_diffusion.py:503 | `node.split('.')[0]` gives back the base exactly when the base has no dot |
| NodeNames.TwinOfProteinNode | Diffusion/GDD_weighted_diffusion.py:557 | `replace('.p', '.t')` maps the protein node of an undotted base to its transcript node |
| NodeNames.LayerNodeInjective | Diffusion/GDD_weighted_diffusion.py:142-143 | distinct bases give distinct layer nodes |
| NodeNames.LayersDisjoint | Diffusion/GDD_weighted_diffusion.py:142-143 | no protein node is a transcript node |
| Text.Split | Diffusion/GDD_weighted_diffusion.py:962 | `str.split(sep)` gives at least one part, no part holds the separator, and joining the parts gives back the string |
| Text.SplitConcat | Diffusion/GDD_weighted_diffusion.py:962 | splitting `a + sep + b`, with no separator in `a`, gives `a` followed by the parts of `b` |
| Text.ParseInt | Diffusion/GDD_weighted_diffusion.py:963 | `int(s)`: defined exactly on a run of digits with an optional sign |
| Text.ParseIntNatToString | Diffusion/GDD_weighted_diffusion.py:963 | `int(str(n)) == n` |
| ResultKeys.RandomKey | Diffusion/GDD_weighted_diffusion.py:622 | `f'random_{n}_run_{i}'` |
| ResultKeys.ParseRandomKey | Diffusion/GDD_weighted_diffusion.py:961-963 | succeeds exactly when there are at least four `_`-fields and fields 1 and 3 are integers; errors say which |
| ResultKeys.SplitRandomKey | Diffusion/GDD_weighted_diffusion.py:622 | a stored key splits into `random`, the node count, `run` and the run index |
| ResultKeys.ParseRandomKeyRoundTrip | Diffusion/GDD_weighted_diffusion.py:622 | parsing `random_{n}_run_{i}` gives back `(n, i)` |
| ResultKeys.RandomKeyInjective | Diffusion/GDD_weighted_diffusion.py:622 | distinct runs never share a result key |
| Distribution.StartIndexOf | Diffusion/GDD_weighted_diffusion.py:514-519 | `start_index`: `rank*(q+1)` for the first `n%size` ranks, otherwise `rem*(q+1) + (rank-rem)*q`, where `q = n//size` and `rem = n%size`; `IndicesOfBlock` shows it is where the rank's block starts |
| Distribution.EndIndexOf | Diffusion/GDD_weighted_diffusion.py:514-519 | `end_index`: the start plus `q+1` for the first `n%size` ranks, plus `q` for the others |
| Distribution.Distribute | Diffusion/GDD_weighted_diffusion.py:509-537 | `distribute_nodes` and `distribute_pathways`: `items[start_index:end_index]`, at most `n//size + 1` items; `DistributeBlock` and `DistributeCovers` pin it down |
| Distribution.Slice | Diffusion/GDD_weighted_diffusion.py:521 | Python slicing: the length is clamped to the sequence, and an in-range slice is the ordinary one |
| Distribution.BlockStartClosedForm | Diffusion/GDD_weighted_diffusion.py:514-519 | the start index is `rank*(n//size) + min(rank, n%size)` |
| Distribution.IndicesOfBlock | Diffusion/GDD_weighted_diffusion.py:514-519 | for ranks below `size`, `start_index` and `end_index` as written in the two branches are the start and end of the rank's block |
| Distribution.DistributeBlock | Diffusion/GDD_weighted_diffusion.py:509-521 | the share of `rank` is the block of the items from its start index, of its block length |
| Distribution.DistributeCovers | Diffusion/GDD_weighted_diffusion.py:509-537 | the shares of ranks 0..size-1, concatenated, are exactly the items, in order |
| Distribution.DistributeLength | Diffusion/GDD_weighted_diffusion.py:509-521 | a share has its block length, at most `n//size + 1` |
| Distribution.BlockStartMonotone | Diffusion/GDD_weighted_diffusion.py:514-519 | later ranks start no earlier |
| Distribution.BlockStartBound | Diffusion/GDD_weighted_diffusion.py:514-519 | every share ends within the items |
| Distribution.DistributeRuns | Diffusion/GDD_weighted_diffusion.py:539-543 | `distribute_runs`: `range(rank*q, rank*q + q)` with `q = total//size`, the last rank running to `total` |
| Distribution.RunsCover | Diffusion/GDD_weighted_diffusion.py:539-543 | the run ranges of all ranks, concatenated, are `0..total` |
| Distribution.RunsLength | Diffusion/GDD_weighted_diffusion.py:539-543 | every rank but the last gets `total//size` runs; the last also gets the remainder |
| Distribution.RunsImbalanceExample | Diffusion/GDD_weighted_diffusion.py:539-543 | 7 runs over 4 ranks are split 1, 1, 1, 4 |
| Distribution.Range | Diffusion/GDD_weighted_diffusion.py:543 | `range(lo, hi)`: `hi - lo` consecutive integers from `lo`, empty when `hi <= lo` |
| Merging.MergeAll | Diffusion/GDD_weighted_diffusion.py:882-884 | the fold of `dict` assignment over the parts, left to right |
| Merging.MergeAllKeys | Diffusion/GDD_weighted_diffusion.py:879-884 | a key is in the merged dictionary exactly when some part has it |
| Merging.MergeAllLastWins | Diffusion/GDD_weighted_diffusion.py:882-884 | a key keeps the value of the last part that has it |
| Merging.MergeAllDisjoint | Diffusion/GDD_weighted_diffusion.py:879-884 | with disjoint parts every entry of every part survives unchanged |
| Merging.CopyEntries | Diffusion/GDD_weighted_diffusion.py:883-884 | copying one part's items is the right-biased union |
| Merging.Combine | Diffusion/GDD_weighted_diffusion.py:879-884 | the root rank's loop computes `MergeAll` of the gathered parts |
| Analysis.RowSqDistance | Diffusion/GDD_weighted_diffusion.py:600-601 | a squared distance between rows is never negative |
| Analysis.SqDistance | Diffusion/GDD_weighted_diffusion.py:600-601 | a squared Frobenius distance is never negative |
| Analysis.SqDistanceSelf | Diffusion/GDD_weighted_diffusion.py:600-601 | a kernel is at distance 0 from itself |
| Analysis.SqDistanceSymmetric | Diffusion/GDD_weighted_diffusion.py:600-601 | the distance does not depend on the order of its arguments |
| Analysis.MaxOf | Diffusion/GDD_weighted_diffusion.py:606-607 | `np.max`: an upper bound of the series that the series reaches |
| Analysis.Kernels | Diffusion/GDD_weighted_diffusion.py:597-598 | one kernel per time point, at that time |
| Analysis.DistanceSeries | Diffusion/GDD_weighted_diffusion.py:600-601 | defined exactly when the two kernel series match in length and shape; then one distance per time point |
| Analysis.KnockedDown | Diffusion/GDD_weighted_diffusion.py:591-594 | a knockdown keeps the nodes and the edge set; it fails exactly for a gene with a layer node missing |
| Analysis.EntryFor | Diffusion/GDD_weighted_diffusion.py:593-607 | a gene or pathway entry keeps both GDD series, one value per time point; a random entry keeps only the maxima; both maxima are non-negative |
| Analysis.UnknownPathwayNoDisruption | Diffusion/GDD_weighted_diffusion.py:167-205 | an unknown pathway knocks nothing down, so its disruption series is all zeros and its maximum 0 |
| Analysis.IdenticalSubtypesNoTransition | Diffusion/GDD_weighted_diffusion.py:600 | when both subtypes are the same graph, the transition distance is 0 at every time |
| Analysis.KnockDownSubtype | Diffusion/GDD_weighted_diffusion.py:591-594 | dispatches on the target type to the matching knockdown and equals `KnockedDown` |
| Analysis.MeasureReduction | Diffusion/GDD_weighted_diffusion.py:593-607 | one reduction factor's work equals `EntryFor` |
| Analysis.RecordedSnoc | Diffusion/GDD_weighted_diffusion.py:586-606 | storing one more successfully measured reduction factor extends the record to one more factor |
| Analysis.FirstFailure | Diffusion/GDD_weighted_diffusion.py:586-606 | a factor that fails after all earlier ones succeeded is the first failure, so not every factor succeeds |
| Analysis.SweepReductions | Diffusion/GDD_weighted_diffusion.py:588-608 | succeeds exactly when every factor succeeds, and then records each factor's entry; otherwise it reports the first failure |
| Analysis.TargetName | Diffusion/GDD_weighted_diffusion.py:587 | the key `knockout_target`: the gene for a gene run, the description for a pathway run |
| Analysis.RunTargetAnalysis | Diffusion/GDD_weighted_diffusion.py:579-608 | the result has the single key of the target and holds one entry per reduction factor; a failure comes from some factor |
| Analysis.RunRandomAnalysis | Diffusion/GDD_weighted_diffusion.py:613-646 | succeeds exactly when every run index is in range and every entry succeeds; the keys are `random_{n}_run_{i}` for the run indices, each holding its run's entries; errors name their cause |
| Assembly.Reweight | Diffusion/GDD_weighted_diffusion.py:398-403 | re-weighting keeps the nodes and the edge set |
| Assembly.ReweightEffect | Diffusion/GDD_weighted_diffusion.py:398-403 | after re-weighting, tagged edges weigh the interlayer weight, all others 1.0, and the graph stays valid |
| Assembly.ReweightIdempotent | Diffusion/GDD_weighted_diffusion.py:398-408 | the second re-weighting pass changes nothing |
| Assembly.ReweightEdges | Diffusion/GDD_weighted_diffusion.py:398-403 | the edge loop computes `Reweight` |
| Assembly.AddNode | Diffusion/GDD_weighted_diffusion.py:377-380 | adding a node appends it unless present, keeps the old order as a prefix and keeps nodes distinct |
| Assembly.AddEdge | Diffusion/GDD_weighted_diffusion.py:396 | adding an edge adds its endpoints and both orientations with the given weight, and changes no other edge |
| Assembly.AddEdgeValid | Diffusion/GDD_weighted_diffusion.py:396 | adding an edge to a valid graph gives a valid graph |
| Assembly.AddLayerSuffix | Diffusion/GDD_weighted_diffusion.py:366-367 | relabelling suffixes every node, in order, maps each edge to the edge between the suffixed endpoints and keeps its weight |
| Assembly.SuffixedDistinct | Diffusion/GDD_weighted_diffusion.py:366-367 | suffixing keeps node names distinct |
| Assembly.AddLayerSuffixValid | Diffusion/GDD_weighted_diffusion.py:366-367 | a suffixed valid graph is valid |
| Assembly.Multiplex | Diffusion/GDD_weighted_diffusion.py:374-408 | both suffixed layers side by side, an interlayer edge for every gene in both layers, then the re-weighting pass |
| Assembly.MultiplexProteinEdges | Diffusion/GDD_weighted_diffusion.py:377-378 | an edge between two protein nodes is in the multiplex exactly when it is in the protein layer |
| Assembly.MultiplexTranscriptEdges | Diffusion/GDD_weighted_diffusion.py:379-380 | an edge between two transcript nodes is in the multiplex exactly when it is in the transcript layer |
| Assembly.MultiplexInterlayerEdges | Diffusion/GDD_weighted_diffusion.py:391-396 | a protein–transcript edge exists exactly when both nodes belong to one gene that is in both layers |
| Assembly.MultiplexNodes | Diffusion/GDD_weighted_diffusion.py:377-380 | the multiplex nodes are the protein nodes followed by the transcript nodes, all distinct |
| Assembly.MultiplexValid | Diffusion/GDD_weighted_diffusion.py:374-408 | the multiplex is a valid graph whose every weight is 1.0 |
| Assembly.WeightedMultiOmicsGraph | Diffusion/GDD_weighted_diffusion.py:366-408 | the builder, with its interlayer loop and two re-weighting passes, computes `Multiplex` |
| Selection.OrphansAmong | Diffusion/GDD_weighted_diffusion.py:449-454 | the orphans are exactly the nodes of degree zero, each once |
| Selection.GetOrphans | Diffusion/GDD_weighted_diffusion.py:449-454 | the node loop collects `OrphansAmong` the graph's nodes |
| Selection.OrphansIsolated | Diffusion/GDD_weighted_diffusion.py:449-454 | in a valid graph the orphans are exactly the nodes no edge touches |
| Selection.SortBy | Diffusion/GDD_weighted_diffusion.py:489-490 | Python's stable `sorted` with a key; the result has the input's length, and the three lemmas below fix it uniquely |
| Selection.HubNodes | Diffusion/GDD_weighted_diffusion.py:489 | the first `koh` nodes of a stable sort by descending degree |
| Selection.AntiHubNodes | Diffusion/GDD_weighted_diffusion.py:490 | the first `kob` nodes of a stable sort by ascending degree |
| Selection.SortBySorted | Diffusion/GDD_weighted_diffusion.py:489-490 | `sorted` orders by the key |
| Selection.SortByPermutation | Diffusion/GDD_weighted_diffusion.py:489-490 | `sorted` is a permutation of its input |
| Selection.SortByStable | Diffusion/GDD_weighted_diffusion.py:489-490 | `sorted` is stable: the elements with any one key keep their order |
| Selection.HubsDominate | Diffusion/GDD_weighted_diffusion.py:489 | every hub has at least the degree of every node not chosen |
| Selection.AntiHubsDominated | Diffusion/GDD_weighted_diffusion.py:490 | every anti-hub has at most the degree of every node not chosen |
| Selection.HubNodesShape | Diffusion/GDD_weighted_diffusion.py:489 | there are `min(koh, n)` hubs, all nodes of the graph |
| Selection.HubTiesKeepNodeOrder | Diffusion/GDD_weighted_diffusion.py:489 | with `reverse=True`, nodes of equal degree stay in node order |
| Selection.BaseNames | Diffusion/GDD_weighted_diffusion.py:503 | one base name per node, in order |
| Selection.NodesToInvestigate | Diffusion/GDD_weighted_diffusion.py:502-505 | with `koh` 0 there is one entry per node; no entry contains a dot |
| Selection.BothLayersListedTwice | Diffusion/GDD_weighted_diffusion.py:502-503 | with `koh` 0 a gene in both layers is listed twice |
| Selection.Fresh | Diffusion/GDD_weighted_diffusion.py:725-729 | the candidates not yet listed, each once at its first occurrence, in list order |
| Selection.FreshPrefix | Diffusion/GDD_weighted_diffusion.py:725-729 | the fresh names of a prefix of the candidates are a prefix of the fresh names of all of them |
| Selection.ExtendedProperties | Diffusion/GDD_weighted_diffusion.py:702-729 | the extended list keeps the old names as a prefix and stays within `koh` names (0 meaning 10^12); it appends only new candidates and keeps names distinct; below the limit every candidate is included |
| Selection.ExtendedInOrder | Diffusion/GDD_weighted_diffusion.py:725-729 | with room for two, candidates `a`, `b`, `c` give `a`, `b`: the first fresh candidates, in list order |
| Selection.ExtendPathways | Diffusion/GDD_weighted_diffusion.py:702-729 | below the limit, the loop appends the first `limit - len(pathways)` fresh candidates in list order; at or above the limit it leaves the list unchanged |
| DemoNet.Demo | Diffusion/GDD_weighted_diffusion.py:247-272 | the two rings, the five interlayer edges and the two chords over the ten demo nodes, with the interlayer edges re-weighted |
| DemoNet.DemoNodeInjective | Diffusion/GDD_weighted_diffusion.py:251-255 | the ten demonstration nodes have distinct names |
| DemoNet.PythonPrev | Diffusion/GDD_weighted_diffusion.py:257-259 | `(i-1) % 5` is the ring predecessor |
| DemoNet.DemoValid | Diffusion/GDD_weighted_diffusion.py:247-272 | the demonstration network is valid; its interlayer edges weigh the interlayer weight and all others 1.0; every gene's two nodes are joined |
| DemoNet.Double5Demonet | Diffusion/GDD_weighted_diffusion.py:247-272 | the construction loops compute the network of two five-rings with chords `1.t–3.t` and `1.p–4.p` and five interlayer edges |

## Left out

- The eigendecomposition, the matrix exponential and `np.sqrt` are not modelled. The kernel is a parameter. The model records the maximum of the squared distances, whose square root is the source's maximum.
- Analysis.SqDistanceSelf: only one direction is proved. The converse, that distance 0 implies equal kernels, is not proved: the real-arithmetic reasoning it needs was not achieved.
- MPI (`comm.gather`, ranks) is left out. The gathered parts are an input sequence of dictionaries.
- Argument parsing, reading CSV files, pickling, `os.system`, printing and plotting are left out.
- The random choices of `generate_node_combinations` are left out. The combinations are an input; only its `replace('.p', '.t')` is modelled (`NodeNames.TwinOfProteinNode`).
- `np.linspace` for the reduction factors and the time points is left out. Both are input sequences.
- The significance tests and the statistics over the results are left out; only the key parser is modelled.
- `nx.from_pandas_adjacency` is left out. The two layers are input graphs.
- The pymnet visualisation network is left out; only its name preprocessing is modelled.
- The `vis_kernels` entry is not modelled, since it only exists under `--visualize`.
- `create_multiplex_test` is not modelled.
- `weighted_multi_omics_graph` also returns a pymnet network, which the model does not build.
- The interlayer weight is modelled as a real number, and edges are added with weight 1.0 until the re-weighting pass sets the final weight. networkx adds them without a weight attribute; both passes overwrite every edge.
- The tiebreak in `Selection.SortBy` is not claimed to match CPython's merge sort beyond stability. Any stable sort by the same key gives the same result.
- `int()` accepting surrounding whitespace and digit-separating underscores is not modelled. `Text.ParseInt` accepts only an optional sign and decimal digits.
- The iteration order of networkx sets (the component order, and neighbour order within a component) is not modelled. Components are specified as a partition.
- numpy broadcasting of size-1 dimensions in the kernel differences is not modelled. Kernel series of different shapes give no result.
- An unknown `knockout_type` returns an empty dictionary in the source; the model's `Target` type has only the three known kinds.
- DemoNet.Double5Demonet: returns only the graph. The pandas adjacency table is left out, and so is the Laplacian, which is rounded to one decimal place.
- The context modules `old_piGGM.py`, `minimizer_test.py` and `mappingL4_powerseries.py` are not part of this model.

## Findings

| source | as written | input that shows it | evidently intended | confidence | as-written member | corrected member |
|---|---|---|---|---|---|---|
| Diffusion/GDD_weighted_diffusion.py:122-123 | `G.edges(name)` for a name that is not a node iterates the name's characters as nodes, so it removes edges of unrelated one-character nodes | nodes `a`, `b`, edge a–b, name `ab`: the edge a–b is removed | knocking out a name that is not a node changes nothing | not executed | Perturbation.KnockoutNodeAsWritten, Perturbation.KnockoutStrayName | Perturbation.KnockoutNode |
