/**
 * `algo_glouton` of complex.py: while some vertex has a neighbour, take the
 * first vertex of greatest degree, add it to the cover and remove it from the
 * graph.
 */
module Greedy {
  import opened Wrappers
  import opened Sequences
  import opened Graphs
  import opened Degrees

  /**
   * Reference definition of the greedy cover: the vertices picked, in the order
   * they are picked. Each pick is a vertex of the current V, so V shrinks and the
   * recursion ends; no vertex is picked twice and every pick is an input vertex.
   */
  function GreedyOf(G: Graph): (C: seq<int>)
    requires HasLists(G)
    ensures forall x :: x in C ==> x in G.V
    ensures Distinct(C)
    decreases |G.V|
  {
    match FirstMaxVertex(G)
    case None => []
    case Some(m) =>
      var rest := GreedyOf(RemoveVertex(G, m));
      DistinctCons(m, rest);
      [m] + rest
  }

  /** The greedy picks cover every edge of a well-formed input graph. */
  lemma {:induction false} GreedyCovers(G: Graph)
    requires WellFormed(G)
    ensures IsCover(G, GreedyOf(G))
    decreases |G.V|
  {
    match FirstMaxVertex(G)
    case None =>
      forall u | u in G.E
        ensures G.E[u] == []
      {
        assert Degree(G.E, u) == 0;
      }
    case Some(m) =>
      var H := RemoveVertex(G, m);
      RemoveVertexWellFormed(G, m);
      GreedyCovers(H);
      forall u, w | u in G.E && w in G.E[u] && u != m && w != m
        ensures w in H.E[u]
      {
      }
  }

  /**
   * One iteration of the loop on a well-formed graph: the pick is a vertex with a
   * neighbour, the graph stays well formed, and the total list length drops by
   * twice the pick's degree, so the loop makes progress on the edges left.
   */
  lemma GreedyPick(H: Graph, m: int)
    requires WellFormed(H) && FirstMaxVertex(H) == Some(m)
    ensures m in H.V && |H.E[m]| > 0
    ensures WellFormed(RemoveVertex(H, m))
    ensures TotalDegree(RemoveVertex(H, m).V, RemoveVertex(H, m).E) + 2 * |H.E[m]| == TotalDegree(H.V, H.E)
  {
    RemoveVertexWellFormed(H, m);
    RemoveVertexTotal(H, m);
  }

  /** Unfolding one pick of the greedy cover. */
  lemma GreedyStep(C: seq<int>, H: Graph, m: int)
    requires HasLists(H) && FirstMaxVertex(H) == Some(m)
    ensures (C + [m]) + GreedyOf(RemoveVertex(H, m)) == C + GreedyOf(H)
  {
    assert GreedyOf(H) == [m] + GreedyOf(RemoveVertex(H, m));
  }

  /**
   * The `while` loop of `algo_glouton`: it returns GreedyOf(G), so it ends, picks
   * only vertices of the input, never the same one twice, and on a well-formed
   * input every edge has an endpoint among them.
   */
  method GreedyCover(G: Graph) returns (C: seq<int>)
    requires HasLists(G)
    ensures C == GreedyOf(G)
    ensures forall x :: x in C ==> x in G.V
    ensures Distinct(C)
    ensures WellFormed(G) ==> IsCover(G, C)
  {
    C := [];
    var H := G;
    var w := MaxDegreeVertex(H);
    while w != None
      invariant HasLists(H)
      invariant w == FirstMaxVertex(H)
      invariant C + GreedyOf(H) == GreedyOf(G)
      decreases |H.V|
    {
      GreedyStep(C, H, w.value);
      C := C + [w.value];
      H := RemoveVertex(H, w.value);
      w := MaxDegreeVertex(H);
    }
    assert C == GreedyOf(G);
    if WellFormed(G) {
      GreedyCovers(G);
    }
  }
}
