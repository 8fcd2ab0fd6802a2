/**
 * The graph value `(V, E)` of complex.py: a vertex list V and a map E from
 * each vertex to its list of neighbours, and the two removal operations
 * `supprimer_sommet` and `supprimer_sommets`, which build a new pair.
 */
module Graphs {
  import opened Sequences

  /** The `(V, E)` pair: vertex list and adjacency lists. */
  datatype Graph = Graph(V: seq<int>, E: map<int, seq<int>>)

  /** Every vertex of V has a neighbour list; the source indexes `E[v]` for each v of V. */
  predicate HasLists(G: Graph)
  {
    forall v :: v in G.V ==> v in G.E
  }

  /**
   * The invariants the source's graphs keep: distinct vertices, key set equal
   * to the vertex set, no self-loops, neighbours are vertices, and each edge
   * listed equally often at both of its ends.
   */
  predicate WellFormed(G: Graph)
  {
    && Distinct(G.V)
    && HasLists(G)
    && (forall v :: v in G.E ==> v in G.V)
    && (forall u :: u in G.E ==> u !in G.E[u])
    && (forall u, w :: u in G.E && w in G.E[u] ==> w in G.E)
    && (forall u, w :: u in G.E && w in G.E ==> multiset(G.E[u])[w] == multiset(G.E[w])[u])
  }

  /** Every listed edge has an endpoint in C. */
  predicate IsCover(G: Graph, C: seq<int>)
  {
    forall u, w :: u in G.E && w in G.E[u] ==> u in C || w in C
  }

  /** Sum of the lengths of the neighbour lists of the vertices of U. */
  function TotalDegree(U: seq<int>, E: map<int, seq<int>>): nat
    requires forall k :: k in U ==> k in E
  {
    if U == [] then 0
    else
      var u := U[0];
      assert u in U;
      |E[u]| + TotalDegree(U[1..], E)
  }

  /** Number of occurrences of v in the neighbour lists of the vertices of U. */
  function Incidence(U: seq<int>, E: map<int, seq<int>>, v: int): nat
    requires forall k :: k in U ==> k in E
  {
    if U == [] then 0
    else
      var u := U[0];
      assert u in U;
      multiset(E[u])[v] + Incidence(U[1..], E, v)
  }

  /** Number of elements of s that are equal to some element of U, counted once per element of U. */
  function CountsOver(U: seq<int>, s: seq<int>): nat
  {
    if U == [] then 0 else multiset(s)[U[0]] + CountsOver(U[1..], s)
  }

  /**
   * `supprimer_sommet`: v is dropped from V, its key is dropped from E, and the
   * neighbour list of every remaining vertex of V loses its occurrences of v.
   * Keys of E that are not in V keep their lists untouched, as in the source.
   */
  function RemoveVertex(G: Graph, v: int): (r: Graph)
    requires forall x :: x in G.V && x != v ==> x in G.E
    ensures HasLists(r)
    ensures |r.V| <= |G.V| && (v in G.V ==> |r.V| < |G.V|)
    ensures forall x :: x in r.V <==> x in G.V && x != v
    ensures forall k :: k in r.E <==> k in G.E && k != v
    ensures forall k :: k in r.V ==> v !in r.E[k]
    ensures forall k :: k in r.E && k !in r.V ==> r.E[k] == G.E[k]
  {
    var V2 := Without(G.V, v);
    Graph(V2, map k | k in G.E && k != v :: if k in V2 then Without(G.E[k], v) else G.E[k])
  }

  /** `supprimer_sommets`: the same as RemoveVertex, for every member of W at once. */
  function RemoveVertices(G: Graph, W: seq<int>): (r: Graph)
    requires forall x :: x in G.V && x !in W ==> x in G.E
    ensures HasLists(r)
    ensures forall x :: x in r.V <==> x in G.V && x !in W
    ensures forall k :: k in r.E <==> k in G.E && k !in W
    ensures forall k, w :: k in r.V && w in W ==> w !in r.E[k]
    ensures forall k :: k in r.E && k !in r.V ==> r.E[k] == G.E[k]
  {
    var V2 := WithoutAll(G.V, W);
    Graph(V2, map k | k in G.E && k !in W :: if k in V2 then WithoutAll(G.E[k], W) else G.E[k])
  }

  /** Reference definition: remove the members of W one after another, first to last. */
  function RemoveEach(G: Graph, W: seq<int>): (r: Graph)
    requires HasLists(G)
    ensures HasLists(r)
    decreases |W|
  {
    if W == [] then G else RemoveVertex(RemoveEach(G, W[..|W| - 1]), W[|W| - 1])
  }

  /** Each remaining list is its old list minus exactly the occurrences of v. */
  lemma RemoveVertexLists(G: Graph, v: int)
    requires HasLists(G)
    ensures forall k :: k in RemoveVertex(G, v).V ==>
      multiset(RemoveVertex(G, v).E[k]) == multiset(G.E[k])[v := 0]
  {
    var r := RemoveVertex(G, v);
    forall k | k in r.V
      ensures multiset(r.E[k]) == multiset(G.E[k])[v := 0]
    {
      WithoutCount(G.E[k], v);
    }
  }

  /** Removal keeps a graph well formed, and v is gone from every list. */
  lemma RemoveVertexWellFormed(G: Graph, v: int)
    requires WellFormed(G)
    ensures WellFormed(RemoveVertex(G, v))
    ensures forall k :: k in RemoveVertex(G, v).E ==> v !in RemoveVertex(G, v).E[k]
  {
    var r := RemoveVertex(G, v);
    WithoutDistinct(G.V, v);
    RemoveVertexLists(G, v);
    forall u, w | u in r.E && w in r.E
      ensures multiset(r.E[u])[w] == multiset(r.E[w])[u]
    {
      assert multiset(G.E[u])[w] == multiset(G.E[w])[u];
    }
  }

  /** Removing a vertex that is not in a well-formed graph changes nothing. */
  lemma RemoveAbsentVertex(G: Graph, v: int)
    requires WellFormed(G) && v !in G.V
    ensures RemoveVertex(G, v) == G
  {
    var r := RemoveVertex(G, v);
    assert r.V == G.V by { WithoutAbsent(G.V, v); }
    forall k | k in G.E
      ensures k in r.E && r.E[k] == G.E[k]
    {
      WithoutAbsent(G.E[k], v);
    }
    assert r.E == G.E;
  }

  /**
   * In general, removing v gives back the same graph exactly when v is not in V,
   * not a key of E, and in no list of a vertex of V.
   */
  lemma RemoveVertexNoOp(G: Graph, v: int)
    requires forall x :: x in G.V && x != v ==> x in G.E
    ensures RemoveVertex(G, v) == G <==>
      v !in G.V && v !in G.E && forall k :: k in G.V ==> v !in G.E[k]
  {
    var r := RemoveVertex(G, v);
    if v !in G.V && v !in G.E && forall k :: k in G.V ==> v !in G.E[k] {
      assert r.V == G.V by { WithoutAbsent(G.V, v); }
      forall k | k in G.E
        ensures k in r.E && r.E[k] == G.E[k]
      {
        if k in G.V {
          WithoutAbsent(G.E[k], v);
        }
      }
      assert r.E == G.E;
    }
  }

  /** Removing the same vertex twice gives the same graph as removing it once. */
  lemma RemoveVertexIdempotent(G: Graph, v: int)
    requires HasLists(G)
    ensures RemoveVertex(RemoveVertex(G, v), v) == RemoveVertex(G, v)
  {
    var r1 := RemoveVertex(G, v);
    var r2 := RemoveVertex(r1, v);
    assert r2.V == r1.V by { WithoutAbsent(r1.V, v); }
    forall k | k in r1.E
      ensures k in r2.E && r2.E[k] == r1.E[k]
    {
      if k in r1.V {
        WithoutAbsent(r1.E[k], v);
      }
    }
    assert r2.E == r1.E;
  }

  /** Removing W and then w is removing W extended with w. */
  lemma RemoveVerticesSnoc(G: Graph, W: seq<int>, w: int)
    requires HasLists(G)
    ensures RemoveVertex(RemoveVertices(G, W), w) == RemoveVertices(G, W + [w])
  {
    var r1 := RemoveVertices(G, W);
    var r2 := RemoveVertex(r1, w);
    var r3 := RemoveVertices(G, W + [w]);
    assert r2.V == r3.V by { WithoutAllSnoc(G.V, W, w); }
    forall k | k in r2.E
      ensures k in r3.E && r2.E[k] == r3.E[k]
    {
      if k in r2.V {
        WithoutAllSnoc(G.E[k], W, w);
      }
    }
    assert r2.E == r3.E;
  }

  /** `supprimer_sommets(V, E, W)` is `supprimer_sommet` applied to each member of W in turn. */
  lemma {:induction false} RemoveVerticesIsFold(G: Graph, W: seq<int>)
    requires HasLists(G)
    ensures RemoveVertices(G, W) == RemoveEach(G, W)
    decreases |W|
  {
    if W == [] {
      var r := RemoveVertices(G, W);
      assert r.V == G.V by { WithoutAllNone(G.V); }
      forall k | k in G.E
        ensures k in r.E && r.E[k] == G.E[k]
      {
        WithoutAllNone(G.E[k]);
      }
      assert r.E == G.E;
    } else {
      var W0 := W[..|W| - 1];
      RemoveVerticesIsFold(G, W0);
      RemoveVerticesSnoc(G, W0, W[|W| - 1]);
      assert W0 + [W[|W| - 1]] == W;
    }
  }

  /** The result of `supprimer_sommets` depends only on which vertices W holds. */
  lemma RemoveVerticesOrderFree(G: Graph, W1: seq<int>, W2: seq<int>)
    requires HasLists(G)
    requires forall y :: y in W1 <==> y in W2
    ensures RemoveVertices(G, W1) == RemoveVertices(G, W2)
  {
    var r1 := RemoveVertices(G, W1);
    var r2 := RemoveVertices(G, W2);
    assert r1.V == r2.V by { WithoutAllSameMembers(G.V, W1, W2); }
    forall k | k in r1.E
      ensures k in r2.E && r1.E[k] == r2.E[k]
    {
      WithoutAllSameMembers(G.E[k], W1, W2);
    }
    assert forall k :: k in r2.E ==> k in r1.E;
    assert r1.E == r2.E;
  }

  /** Removing vertices one at a time gives the same graph in any order. */
  lemma RemoveEachOrderFree(G: Graph, W1: seq<int>, W2: seq<int>)
    requires HasLists(G)
    requires forall y :: y in W1 <==> y in W2
    ensures RemoveEach(G, W1) == RemoveEach(G, W2)
  {
    RemoveVerticesIsFold(G, W1);
    RemoveVerticesIsFold(G, W2);
    RemoveVerticesOrderFree(G, W1, W2);
  }

  // Sums over vertex lists, used to follow the total list length.

  lemma {:induction false} TotalDegreeFiltered(U: seq<int>, E: map<int, seq<int>>, E2: map<int, seq<int>>, v: int)
    requires forall k :: k in U ==> k in E && k in E2 && E2[k] == Without(E[k], v)
    ensures TotalDegree(U, E2) + Incidence(U, E, v) == TotalDegree(U, E)
  {
    if U != [] {
      var u := U[0];
      assert u in U;
      TotalDegreeFiltered(U[1..], E, E2, v);
      WithoutLength(E[u], v);
    }
  }

  lemma {:induction false} TotalDegreeWithout(U: seq<int>, E: map<int, seq<int>>, v: int)
    requires Distinct(U) && forall k :: k in U ==> k in E
    ensures TotalDegree(U, E) == TotalDegree(Without(U, v), E) + (if v in U then |E[v]| else 0)
  {
    if U != [] {
      DistinctTail(U);
      TotalDegreeWithout(U[1..], E, v);
      if U[0] == v {
        WithoutAbsent(U[1..], v);
      } else {
        var t := Without(U[1..], v);
        assert ([U[0]] + t)[1..] == t;
      }
    }
  }

  lemma {:induction false} IncidenceWithout(U: seq<int>, E: map<int, seq<int>>, x: int, v: int)
    requires Distinct(U) && forall k :: k in U ==> k in E
    ensures Incidence(U, E, v) == Incidence(Without(U, x), E, v) + (if x in U then multiset(E[x])[v] else 0)
  {
    if U != [] {
      DistinctTail(U);
      IncidenceWithout(U[1..], E, x, v);
      if U[0] == x {
        WithoutAbsent(U[1..], x);
      } else {
        var t := Without(U[1..], x);
        assert ([U[0]] + t)[1..] == t;
      }
    }
  }

  lemma {:induction false} IncidenceIsCounts(U: seq<int>, E: map<int, seq<int>>, v: int)
    requires v in E && forall k :: k in U ==> k in E
    requires forall k :: k in U ==> multiset(E[k])[v] == multiset(E[v])[k]
    ensures Incidence(U, E, v) == CountsOver(U, E[v])
  {
    if U != [] {
      var u := U[0];
      assert u in U;
      IncidenceIsCounts(U[1..], E, v);
    }
  }

  lemma {:induction false} CountsOverWithout(U: seq<int>, s: seq<int>, x: int)
    requires x !in U
    ensures CountsOver(U, Without(s, x)) == CountsOver(U, s)
  {
    if U != [] {
      CountsOverWithout(U[1..], s, x);
      WithoutCount(s, x);
    }
  }

  /** Counting the elements of s vertex by vertex over a duplicate-free U misses only those outside U. */
  lemma {:induction false} CountsOverAll(U: seq<int>, s: seq<int>)
    requires Distinct(U)
    ensures CountsOver(U, s) + |WithoutAll(s, U)| == |s|
  {
    if U == [] {
      WithoutAllNone(s);
    } else {
      var u := U[0];
      var s' := Without(s, u);
      DistinctTail(U);
      CountsOverWithout(U[1..], s, u);
      CountsOverAll(U[1..], s');
      WithoutAllWithout(s, u, U[1..]);
      assert [u] + U[1..] == U;
      WithoutLength(s, u);
    }
  }

  /**
   * In a well-formed graph, removing v shortens the lists by twice its degree in
   * total (its own list, and its entry in each neighbour's list); the total never grows.
   */
  lemma RemoveVertexTotal(G: Graph, v: int)
    requires WellFormed(G)
    ensures TotalDegree(RemoveVertex(G, v).V, RemoveVertex(G, v).E) + (if v in G.V then 2 * |G.E[v]| else 0)
      == TotalDegree(G.V, G.E)
  {
    var r := RemoveVertex(G, v);
    if v !in G.V {
      RemoveAbsentVertex(G, v);
    } else {
      TotalDegreeFiltered(r.V, G.E, r.E, v);
      TotalDegreeWithout(G.V, G.E, v);
      IncidenceWithout(G.V, G.E, v, v);
      assert multiset(G.E[v])[v] == 0;
      IncidenceIsCounts(G.V, G.E, v);
      CountsOverAll(G.V, G.E[v]);
      WithoutAllInside(G.E[v], G.V);
    }
  }

  /** Removing vertices one by one keeps the graph well formed and never lengthens the lists. */
  lemma {:induction false} RemoveEachTotal(G: Graph, W: seq<int>)
    requires WellFormed(G)
    ensures WellFormed(RemoveEach(G, W))
    ensures TotalDegree(RemoveEach(G, W).V, RemoveEach(G, W).E) <= TotalDegree(G.V, G.E)
    decreases |W|
  {
    if W != [] {
      var H := RemoveEach(G, W[..|W| - 1]);
      RemoveEachTotal(G, W[..|W| - 1]);
      RemoveVertexWellFormed(H, W[|W| - 1]);
      RemoveVertexTotal(H, W[|W| - 1]);
    }
  }

  /** `supprimer_sommets` keeps a graph well formed and never lengthens the lists. */
  lemma RemoveVerticesWellFormed(G: Graph, W: seq<int>)
    requires WellFormed(G)
    ensures WellFormed(RemoveVertices(G, W))
    ensures TotalDegree(RemoveVertices(G, W).V, RemoveVertices(G, W).E) <= TotalDegree(G.V, G.E)
  {
    RemoveVerticesIsFold(G, W);
    RemoveEachTotal(G, W);
  }
}
