# Graph with adjacency chains and connected-subgraph enumeration

This project models the `Graph` class of the MotifsDetection program
(`Graph.cpp`). The graph has a fixed array of 100 vertex slots. Each slot
holds a payload (the vertex description) and a singly linked chain of edge
records, each naming a target vertex. Callers number vertices from 1; the
class stores them from 0.

The model keeps that shape:

- `chains.dfy` (module `Chains`): one chain as a `seq<int>` in list order,
  and the recursive helpers that walk it: `insertHelper`, `removeHelper`,
  `copyAllEdge`.
- `adjacency.dfy` (module `Adjacency`): the table of chains (`seq<seq<int>>`),
  `areInRange`, the self-loop/range guard of `insertEdge` and `removeEdge`,
  the invariant that every record names another vertex of the graph, and the
  edge loop of `buildGraph` as a fold over the pairs.
- `extension.dfy` (module `Extension`): `isDuplicate` and `getExtension`.
- `enumeration.dfy` (module `Enumeration`): what `extendSubgraph` and
  `enumerateSubgraph` emit, as functions of the table, with lemmas about the
  emitted subgraphs.
- `graph.dfy` (module `Graphs`): class `Graph` with field `size` and two
  arrays of capacity 100, `chains` (the edge heads) and `data` (the
  payloads). Its methods are the constructors, the copy constructor,
  the destructor, `buildGraph`, `insertEdge`, `removeEdge`,
  `extendSubgraph` and `enumerateSubgraph`. Each method is proved against
  the functions of the other modules.

A payload is `Null` or `Data(description)`. The printing done by
`extendSubgraph` is modelled as a returned list of lines: each line is a
subgraph with its vertices numbered from 1, in the order they were found.

### Where the code and its comments disagree

The model follows the code.

- `insertHelper` (Graph.cpp:188-197) appends the new record without
  looking at the chain. Its comment (Graph.cpp:181-187) promises that a
  duplicate edge is ignored. It is not, so a chain can hold the same target
  several times, and inserting an edge twice is not a no-op
  (`Adjacency.InsertEdgeTwice`, `Chains.InsertKeepsDuplicate`). The class
  invariant therefore does not require a target to appear only once in a
  chain.
- `getExtension` compares each neighbour with the vertex whose chain it
  walks. When called from `extendSubgraph` that vertex is the newly added
  `w`, not the root (Graph.cpp:338, 350). Every candidate is still greater
  than the root, because `w` is (`Enumeration.SubgraphsShape`).
- A subgraph can be emitted with a vertex repeated, and the same vertex set
  can be emitted more than once. No uniqueness is claimed.

### Modelling choices for undefined behaviour

- `Vextension` is initialised from itself before it is constructed
  (Graph.cpp:315). The model uses `getExtension(i, [])`.
- The outer loop of `enumerateSubgraph` runs while `i <= size`
  (Graph.cpp:311). It therefore also searches from the empty slot just past
  the last vertex. The model keeps this bound and requires `size < 100`, so
  that this slot exists. The class invariant keeps slots past `size`
  empty, so with `k == 1` an extra line `[size + 1]` is printed, and for larger
  `k` nothing more is printed.
- `k` is required to be at least 1. For negative `k` the comparisons with
  `size()` at Graph.cpp:323 and 331 are unsigned.

## Model

| member | source | states |
|---|---|---|
| `Chains.InsertHelper` | Graph.cpp:188-197 | the new record goes at the end of the chain: the result is the old chain followed by the target, whether or not the target was already present |
| `Chains.RemoveHelper` | Graph.cpp:222-235 | if the target is absent the chain is unchanged; otherwise it loses exactly one record; no new targets appear |
| `Chains.RemoveHelperCutsFirst` | Graph.cpp:222-235 | the record removed is the first one with the target: the records before and after it keep their order |
| `Chains.CopyAllEdge` | Graph.cpp:86-93 | the rebuilt chain equals the original record for record, in order |
| `Chains.InsertThenRemove` | Graph.cpp:188-235 | removing a target just appended restores the chain exactly, when the target was not in it before |
| `Chains.InsertKeepsDuplicate` | Graph.cpp:181-197 | appending a target already present adds one more record for it (at least two afterwards): duplicates are not rejected |
| `Chains.RemoveKeepsLaterCopies` | Graph.cpp:222-235 | removal takes away exactly one record of the target, leaving any later copies |
| `Adjacency.AreInRange` | Graph.cpp:299-305 | true exactly when both 0-based indices are vertices of the graph, i.e. in `[0, size)` |
| `Adjacency.Accepts` | Graph.cpp:172 | the guard of insertEdge (and the same guard of removeEdge at Graph.cpp:211) lets a call through exactly when the two 1-based numbers differ and both lie in `1..size` |
| `Adjacency.InsertEdgeInto` | Graph.cpp:167-178 | on a self-loop or an end out of `1..size` no chain changes; otherwise the chain of `source-1` becomes the old chain plus `destination-1`; no other chain changes |
| `Adjacency.RemoveEdgeFrom` | Graph.cpp:206-215 | on a self-loop or an out-of-range end no chain changes; otherwise the first record for `destination-1` in the chain of `source-1` is removed, and the chain is unchanged if there is none; no other chain changes |
| `Adjacency.InsertEdgeKeepsWellFormed` | Graph.cpp:167-178 | insertEdge keeps every record in `[0, size)` and different from its own vertex, and keeps the slots past `size` empty |
| `Adjacency.RemoveEdgeKeepsWellFormed` | Graph.cpp:206-215 | removeEdge keeps the same invariant |
| `Adjacency.InsertThenRemoveEdge` | Graph.cpp:167-235 | insertEdge(a,b) then removeEdge(a,b) gives back the whole table, provided `b-1` was not already in the chain of `a-1` |
| `Adjacency.InsertEdgeTwice` | Graph.cpp:167-197 | inserting the same valid edge twice leaves two records for it at the end of the chain |
| `Adjacency.BuildEdges` | Graph.cpp:150-156 | the edge loop of buildGraph keeps one chain per slot |
| `Adjacency.BuildEdgesStep` | Graph.cpp:150-156 | a pair with a nonzero source is inserted and the loop goes on with the remaining pairs |
| `Adjacency.BuildEdgesStopsAtZeroSource` | Graph.cpp:150-156 | pairs after the first one whose source is 0 are never inserted, whatever that pair's destination is |
| `Adjacency.BuildEdgesKeepsWellFormed` | Graph.cpp:150-156 | the edge loop keeps the table invariant for any sequence of pairs |
| `Adjacency.BuildEdgesThreeVertices` | Graph.cpp:133-156 | three vertices with the pairs (1,2), (2,3), (0,0) give the chains `[1]`, `[2]`, `[]` |
| `Extension.IsDuplicate` | Graph.cpp:360-368 | true exactly when the target is in the list |
| `Extension.GetExtension` | Graph.cpp:345-358 | the result starts with the given candidate list unchanged |
| `Extension.GetExtensionAppends` | Graph.cpp:345-358 | every appended element is a target of the chain, greater than the vertex, and not in the given list |
| `Extension.GetExtensionAppendsOnce` | Graph.cpp:345-358 | no element is appended twice |
| `Extension.GetExtensionKeepsNoDuplicates` | Graph.cpp:345-358 | a duplicate-free candidate list stays duplicate-free |
| `Extension.GetExtensionComplete` | Graph.cpp:345-358 | every target of the chain greater than the vertex is in the result |
| `Extension.GetExtensionInChainOrder` | Graph.cpp:345-358 | the appended elements occur in the chain in the same order |
| `Extension.GetExtensionFirstOccurrenceOrder` | Graph.cpp:348-353 | the appended elements come in the order of their first occurrence in the chain, also when the chain repeats a target; with `GetExtensionAppends`, `GetExtensionAppendsOnce` and `GetExtensionComplete` this fixes the result exactly |
| `Extension.GetExtensionRepeatedTarget` | Graph.cpp:346-356 | for the chain `[2,3,2]` of vertex 0 and an empty list the candidates are `[2,3]`: the second record for 2 is skipped |
| `Extension.GetExtensionMembers` | Graph.cpp:345-358 | every element of the result was a candidate already or is a target of the chain greater than the vertex |
| `Enumeration.Subgraphs` | Graph.cpp:321-343 | what extendSubgraph emits from a partial subgraph and a candidate list, in emission order; its properties are stated by `SubgraphsStep`, `PrintedStep` and `SubgraphsShape`, and `Graphs.Graph.ExtendSubgraph` is proved to print exactly it |
| `Enumeration.RootSubgraphs` | Graph.cpp:313-317 | the search from one root with the candidates `getExtension(i, [])`; its properties are stated by `RootSubgraphsShape` and the path lemmas |
| `Enumeration.AllSubgraphs` | Graph.cpp:311-318 | the searches from roots `0 .. n-1` one after the other; its properties are stated by `InAllSubgraphs`, `AllSubgraphsShape`, `AllSubgraphsOfSizeOne` and `PrintedAllNextRoot`, and `Graphs.Graph.EnumerateSubgraph` is proved to print exactly it for `n = size + 1` |
| `Enumeration.Printed` | Graph.cpp:325-327 | a printed line has one number per vertex of the subgraph, each vertex plus one |
| `Enumeration.PrintedAllLines` | Graph.cpp:323-328 | one printed line per emitted subgraph, in order |
| `Enumeration.PrintedAllAppend` | Graph.cpp:323-328 | the lines of two runs of emission one after the other are the lines of the first run followed by those of the second |
| `Enumeration.SubgraphsStep` | Graph.cpp:331-342 | one turn of the while loop: the subgraphs grown through the front candidate come first, then those of the remaining candidates with the subgraph popped back |
| `Enumeration.PrintedStep` | Graph.cpp:331-342 | the same turn on the printed lines: the lines so far, then those of the front candidate's search, then those still to come from the rest of the list, add up to the same whole |
| `Enumeration.StepKeepsRoot` | Graph.cpp:333-336 | pushing the front candidate keeps the root first and every later vertex greater than it |
| `Enumeration.StepGrowsAlongArc` | Graph.cpp:333-336 | the pushed candidate has an arc from a vertex already in the subgraph |
| `Enumeration.StepCandidatesFit` | Graph.cpp:338 | the new candidate list holds only vertices greater than the root with an arc from the extended subgraph |
| `Enumeration.RestCandidatesFit` | Graph.cpp:335 | popping the front candidate keeps the rest valid for the unextended subgraph |
| `Enumeration.SubgraphsShape` | Graph.cpp:321-343 | every subgraph emitted from a partial one has exactly `k` vertices, extends the partial subgraph, starts with the root, has every later vertex greater than the root, and reaches each later vertex by an arc from an earlier one |
| `Enumeration.RootSubgraphsShape` | Graph.cpp:313-343 | every subgraph the search from root `i` emits has `k` vertices, `i` first, later vertices greater than `i`, each reached by an arc |
| `Enumeration.InAllSubgraphs` | Graph.cpp:311-318 | everything enumerateSubgraph emits comes from the search of one of the roots `0 .. n-1` |
| `Enumeration.AllSubgraphsShape` | Graph.cpp:309-343 | everything enumerateSubgraph emits has `k` vertices, a root in `[0, n)` first, later vertices greater than the root, each reached by an arc |
| `Enumeration.AllSubgraphsOfSizeOne` | Graph.cpp:311-328 | with `k == 1` root `i` emits exactly `[i]`, for every root in order |
| `Enumeration.PrintedAllSubgraphsShape` | Graph.cpp:309-328 | every printed line has `k` numbers, the root's between 1 and `n` first, every later number greater |
| `Enumeration.PrintedAllSubgraphsOfSizeOne` | Graph.cpp:309-328 | with `k == 1` the printed lines are `[1]`, `[2]`, ..., `[n]` |
| `Enumeration.PrintedAllNextRoot` | Graph.cpp:311-318 | the lines of root `i` follow the lines of all smaller roots |
| `Enumeration.PrintedPair` | Graph.cpp:325-327 | the printed line of a pair of vertices is the pair numbered from 1 |
| `Enumeration.PathInsertions` | Graph.cpp:167-197 | inserting both directions of the edges 1-2, 2-3, 3-4 into four empty chains gives the path's table |
| `Enumeration.PathIsBuilt` | Graph.cpp:150-156 | the edge loop of buildGraph on the pairs (1,2), (2,1), (2,3), (3,2), (3,4), (4,3), (0,0) builds that table |
| `Enumeration.PathRootWithPair` | Graph.cpp:313-358 | in the path table that `PathIsBuilt` builds from the pairs of 1-2-3-4 in both directions, with `k == 2`, the search from each of the roots 0, 1, 2 emits only the root and its next vertex |
| `Enumeration.PathRootsWithout` | Graph.cpp:313-358 | in the same path, root 3 (no greater neighbour) and root 4 (past the table) emit nothing |
| `Enumeration.PathSearch` | Graph.cpp:309-358 | over roots 0 to 4 the path's search finds exactly `[0,1]`, `[1,2]`, `[2,3]` |
| `Enumeration.PathPairsPrinted` | Graph.cpp:323-328 | those three subgraphs print as `[1,2]`, `[2,3]`, `[3,4]` |
| `Enumeration.PathOfFourPairs` | Graph.cpp:309-358 | the path table that `PathIsBuilt` builds, with `k == 2`, prints exactly `[1,2]`, `[2,3]`, `[3,4]` |
| `Graphs.CandidatesInRange` | Graph.cpp:348-353 | in a well-formed table getExtension only adds vertices of the graph |
| `Graphs.Graph.constructor` | Graph.cpp:35-38 | size 0, every chain empty and every payload null, in new arrays of capacity 100 |
| `Graphs.Graph.Copy` | Graph.cpp:50-93 | same size, payloads and chains equal slot by slot (same order), held in newly allocated arrays |
| `Graphs.Graph.Destroy` | Graph.cpp:101-126 | afterwards every chain is empty and every payload null; the invariant still holds, so a second call changes nothing |
| `Graphs.Graph.BuildGraph` | Graph.cpp:133-157 | size becomes the number of payloads, payload `v` is the `v`-th description, and the chains are the edge-loop fold over the pairs |
| `Graphs.Graph.InsertEdge` | Graph.cpp:167-197 | keeps the invariant and leaves the table as `InsertEdgeInto` of the old table |
| `Graphs.Graph.RemoveEdge` | Graph.cpp:206-235 | keeps the invariant and leaves the table as `RemoveEdgeFrom` of the old table |
| `Graphs.Graph.ExtendSubgraph` | Graph.cpp:321-343 | returns the printed lines of exactly the subgraphs `Subgraphs` describes, in order |
| `Graphs.Graph.EnumerateSubgraph` | Graph.cpp:309-319 | returns the lines of the searches from roots 0 to `size` in order; each has `k` numbers, the root's in `1..size+1` first, later ones greater; with `k == 1` the lines are `[1]` .. `[size+1]` |
| `Graphs.CopyThenEdit` | Graph.cpp:12-14 | editing a copy's edges changes the copy only: the source's chains and payloads stay as they were |

## Left out

- Reading the input file in `buildGraph` (the size, the `getline` into a
  fixed buffer, `eof` checks) is I/O. `BuildGraph` takes the payload lines
  and the pairs already tokenised, and the end of the pair sequence stands
  for end of file. The `eof` test after reading a last pair that has no
  trailing newline is not modelled.
- Graphs.Graph.BuildGraph: requires a graph with no vertices, as the
  default constructor leaves it, and at most 100 payloads. Rebuilding a
  graph that already has edges is not modelled.
- `display`, `displayAll` and `diplayAllHelper` only print; no path is
  computed, so they are not modelled.
- `GraphData` lives in a header that is not part of this model; a payload
  is an opaque description or null. Copying a null payload (undefined in
  the C++) copies it as null.
- Memory: `new` and `delete` of nodes and payloads. Destruction is modelled
  as emptying the chains and nulling the payloads; `removeAllEdge`'s
  node-by-node release is folded into `Destroy`.
- 32-bit `int`: the model's integers are unbounded, so `source - 1` never
  wraps around for the smallest `int`.
- Graphs.Graph.EnumerateSubgraph: requires `size < 100` and `k >= 1`.
  With 100 vertices the source reads past the vertex array, and negative
  `k` goes through an unsigned comparison.
- Graphs.Graph.ExtendSubgraph: the candidate list is passed by reference
  in the source and popped in place. No caller reads it afterwards, so the
  model passes it by value.
