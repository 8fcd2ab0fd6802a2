# Greedy vertex cover on adjacency lists — a Dafny model

This project models the graph kernel and the degree-greedy vertex-cover
heuristic of `complex.py`. A graph is the pair `(V, E)`: a vertex list `V`
and a dictionary `E` from each vertex to its list of neighbours. The model
covers:

- building `E` from a list of vertex pairs (`couples_vers_liste_adjacences`);
- removing one vertex (`supprimer_sommet`) or a list of vertices
  (`supprimer_sommets`), each of which builds a new pair;
- the degree map (`degres`) and the scan for the first vertex of greatest
  positive degree (`sommet_degre_maximal`);
- the greedy cover (`algo_glouton`), which keeps taking that vertex and
  removing it until no edge is left.

Layout, one module per file:

- `wrappers.dfy` (`Wrappers`): `Option` and `Result`.
- `sequences.dfy` (`Sequences`): the two list filters,
  `[y for y in s if y != x]` (`Without`) and `[y for y in s if y not in W]`
  (`WithoutAll`), with their lemmas.
- `graph.dfy` (`Graphs`): the `Graph` datatype, the well-formedness invariant
  and the two removals.
- `adjacency.dfy` (`Adjacency`): construction from pairs.
- `degrees.dfy` (`Degrees`): `degres` and `sommet_degre_maximal`.
- `greedy.dfy` (`Greedy`): `algo_glouton`.

Modelling choices:

- Loops that update variables in the source are methods with `while` loops,
  proved equal to a reference function: `BuildAdjacency`, `MaxDegreeVertex`
  and `GreedyCover`.
- The removals are comprehensions and are modelled as functions. The
  neighbour filter at complex.py:60 reuses the name `v2`, but its iterable
  `E2[v2]` is evaluated with the outer `v2`. So each remaining vertex's own
  list is filtered, and the model does exactly that.
- The removal loop visits only the vertices of the new `V`. A key of `E` that
  is not in `V` therefore keeps its list unfiltered, and the model keeps it too.
- The `KeyError` that construction raises on a pair with an endpoint outside
  `V` is modelled as the error `UnknownEndpoint`, which names the key looked up
  (`u` is looked up before `v`).
- Removing a vertex that is not in the graph is proved a no-op for
  well-formed graphs (`RemoveAbsentVertex`). In general it is a no-op exactly
  when the vertex is absent from `V`, from the keys of `E` and from the lists
  of the vertices of `V` (`RemoveVertexNoOp`).
- There is no `DuplicateVertex` check at construction: the code has none.
  A vertex listed twice in `V` just gets one key.

## Model

| member | source | states |
|---|---|---|
| Sequences.Without | complex.py:57 | the filter keeps exactly the elements different from x, and is strictly shorter when x occurs |
| Sequences.WithoutCount | complex.py:60 | filtering drops exactly the occurrences of x: the multiset is the old one with x's count set to 0 |
| Sequences.WithoutConcat | complex.py:60 | filtering works piecewise on a concatenation, so the kept elements keep their order |
| Sequences.WithoutAll | complex.py:66-69 | the `not in W` filter keeps exactly the elements outside W and never lengthens the list |
| Sequences.WithoutAllCount | complex.py:66-69 | the filter drops exactly the occurrences of the members of W: every other value keeps its count |
| Sequences.WithoutAllConcat | complex.py:66-69 | the filter works piecewise on a concatenation, so the kept elements keep their order |
| Sequences.WithoutAllSameMembers | complex.py:66 | the `not in W` filter depends only on which values W holds |
| Adjacency.AdjacencyOf | complex.py:26-31 | the built map has a key for every vertex of V and no other, and lists only vertices of V |
| Adjacency.BuildAdjacency | complex.py:26-31 | the loop fails exactly when some pair has an endpoint outside V, reporting the key of the first failing lookup; otherwise it returns AdjacencyOf(V, couples) |
| Adjacency.AdjacencyCounts | complex.py:28-30 | b occurs in a's list once per pair (a, b) plus once per pair (b, a) |
| Adjacency.AdjacencySymmetric | complex.py:28-30 | the built map is symmetric, counting multiplicity |
| Adjacency.AdjacencyTotal | complex.py:26-31 | for distinct vertices, the list lengths add up to 2·|couples| |
| Adjacency.AdjacencyWellFormed | complex.py:26-31 | distinct vertices and pairs of distinct vertices of V give a well-formed graph |
| Graphs.RemoveVertex | complex.py:56-61 | defined whenever every vertex of V other than v has a list; V2 holds exactly the vertices of V other than v; E2's keys are E's keys other than v; no list of a remaining vertex mentions v; keys outside V2 keep their lists |
| Graphs.RemoveVertexLists | complex.py:59-60 | each remaining vertex's list is its old list minus exactly the occurrences of v |
| Graphs.RemoveVertexWellFormed | complex.py:56-61 | removal preserves well-formedness (distinct V, keys = V, no self-loops, symmetry), and v is in no list |
| Graphs.RemoveAbsentVertex | complex.py:56-61 | removing a vertex absent from a well-formed graph returns the same graph |
| Graphs.RemoveVertexNoOp | complex.py:56-61 | removal returns the same graph exactly when v is not in V, not a key of E and in no list of a vertex of V |
| Graphs.RemoveVertexIdempotent | complex.py:56-61 | removing v twice equals removing it once |
| Graphs.RemoveVertexTotal | complex.py:56-61 | in a well-formed graph, the list lengths drop by exactly twice v's degree, so they never grow |
| Graphs.RemoveVertices | complex.py:65-70 | defined whenever every vertex of V outside W has a list; V2 holds exactly the vertices of V outside W; E2's keys are E's keys outside W; no remaining list mentions a member of W; keys outside V2 keep their lists |
| Graphs.RemoveVerticesSnoc | complex.py:65-70 | removing W and then w equals removing W + [w] |
| Graphs.RemoveVerticesIsFold | complex.py:65-70 | `supprimer_sommets` equals `supprimer_sommet` applied to each member of W in turn |
| Graphs.RemoveVerticesOrderFree | complex.py:65-70 | the result does not depend on the order or repetitions of W |
| Graphs.RemoveEachOrderFree | complex.py:56-61 | removing vertices one by one gives the same graph in any order |
| Graphs.RemoveEachTotal | complex.py:56-61 | successive removals keep the graph well formed and never lengthen the lists |
| Graphs.RemoveVerticesWellFormed | complex.py:65-70 | `supprimer_sommets` preserves well-formedness and never lengthens the lists |
| Degrees.Degrees | complex.py:74-75 | the degree map has exactly the vertices of V as keys, each mapped to the length of its list |
| Degrees.DegreeAfterRemoval | complex.py:74-75 | after removing v, every other vertex's degree drops by the number of its edges to v |
| Degrees.MaxDegree | complex.py:79-85 | an upper bound of every degree in V that is attained when positive |
| Degrees.FirstMaxVertex | complex.py:79-85 | None iff every vertex of V has degree 0 (an empty V included); otherwise a vertex of V of greatest, positive degree, preceded in V only by vertices of smaller degree |
| Degrees.FirstMaxStep | complex.py:81-84 | one loop step replaces the answer exactly when the new vertex's degree is strictly greater than the best so far |
| Degrees.MaxDegreeVertex | complex.py:79-85 | the scan returns FirstMaxVertex |
| Greedy.GreedyOf | complex.py:100-109 | the greedy picks are distinct vertices of the input V, and the recursion ends because each pick leaves V |
| Greedy.GreedyPick | complex.py:105-107 | on a well-formed graph each pick is a vertex of V with a neighbour, the graph stays well formed, and the total list length drops by twice the pick's degree |
| Greedy.GreedyCovers | complex.py:100-109 | on a well-formed graph, every edge has an endpoint among the greedy picks |
| Greedy.GreedyCover | complex.py:100-109 | the loop ends and returns GreedyOf(G): distinct input vertices that cover every edge of a well-formed input |

## Left out

- `lire_instance` (complex.py:35-52) reads a file. It also reads exactly five vertex lines whatever the count says. File I/O is outside the model.
- `generer_graphe` (complex.py:89-97) draws edges with `random()`. Randomness is outside the model.
- The top-level script (complex.py:142-151) prints at import time. The unused `asyncio.windows_events` import (complex.py:1) is also outside the model.
- test.py only plots random data and has nothing to model.
- The docstring after `algo_glouton` (complex.py:111-135) argues that the heuristic is no r-approximation for r < 2. The example results it gives assume a different tie-break from the code's first-maximum rule. No concrete run of the greedy is proved; only its general properties are.
- Adjacency.AdjacencyTotal: stated only for a duplicate-free V. The model sums over the list V, while the source's dictionary has one key per distinct vertex.
- No general edge-count function `sum / 2` is given. Evenness of the total is proved only for built graphs (AdjacencyTotal). Removals are tracked through the total itself.
- Graphs.RemoveVerticesWellFormed: proves only that the total list length does not increase. The exact drop is stated per vertex, in Graphs.RemoveVertexTotal.
- A missing neighbour list raises `KeyError` in the source, which has no error path for it, so the model makes its presence a precondition instead of an error result. `degres`, `sommet_degre_maximal` and `algo_glouton` index `E[v]` for every vertex of `V` (complex.py:75, 82-83), so they require `HasLists`. The removals index only the lists of the vertices that remain (complex.py:59-60, 68-69), so `RemoveVertex` and `RemoveVertices` require only those. Every call in the source meets these: `algo_glouton` calls `sommet_degre_maximal` first (complex.py:102, 107), and the script passes the map that `lire_instance` builds from `V` (complex.py:142-143, 151).
- Python integers are unbounded, like Dafny's `int`, so no width or overflow is modelled.
