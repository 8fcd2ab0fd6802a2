/**
 * `couples_vers_liste_adjacences` of complex.py: start every vertex of V with an
 * empty list, then for each pair (u, v) append v to u's list and u to v's list.
 * A pair naming a vertex outside V raises KeyError in the source; here that is
 * the error UnknownEndpoint, naming the key that was looked up.
 */
module Adjacency {
  import opened Wrappers
  import opened Sequences
  import opened Graphs

  datatype BuildError = UnknownEndpoint(vertex: int)

  /** Both endpoints of every pair are vertices of V. */
  predicate EndpointsIn(V: seq<int>, couples: seq<(int, int)>)
  {
    forall i :: 0 <= i < |couples| ==> couples[i].0 in V && couples[i].1 in V
  }

  /** No pair joins a vertex to itself. */
  predicate NoLoops(couples: seq<(int, int)>)
  {
    forall i :: 0 <= i < |couples| ==> couples[i].0 != couples[i].1
  }

  /** Number of positions of couples holding exactly the pair (a, b). */
  function Occurrences(couples: seq<(int, int)>, a: int, b: int): nat
    decreases |couples|
  {
    if couples == [] then 0
    else Occurrences(couples[..|couples| - 1], a, b) + (if couples[|couples| - 1] == (a, b) then 1 else 0)
  }

  /** The map built after processing all of couples in order. */
  function AdjacencyOf(V: seq<int>, couples: seq<(int, int)>): (E: map<int, seq<int>>)
    requires EndpointsIn(V, couples)
    ensures forall x :: x in E <==> x in V
    ensures forall u, w :: u in E && w in E[u] ==> w in V
    decreases |couples|
  {
    if couples == [] then map x | x in V :: []
    else
      var last := couples[|couples| - 1];
      var E0 := AdjacencyOf(V, couples[..|couples| - 1]);
      var E1 := E0[last.0 := E0[last.0] + [last.1]];
      E1[last.1 := E1[last.1] + [last.0]]
  }

  /**
   * The loop of `couples_vers_liste_adjacences`. It fails exactly when some pair
   * names a vertex outside V, reporting the first key looked up in vain (u before v
   * of the first such pair); otherwise it returns AdjacencyOf(V, couples).
   */
  method BuildAdjacency(V: seq<int>, couples: seq<(int, int)>) returns (r: Result<map<int, seq<int>>, BuildError>)
    ensures r.Ok? <==> EndpointsIn(V, couples)
    ensures r.Ok? ==> r.value == AdjacencyOf(V, couples)
    ensures r.Err? ==> exists i :: (0 <= i < |couples| && EndpointsIn(V, couples[..i]) &&
      ((couples[i].0 !in V && r.error == UnknownEndpoint(couples[i].0)) ||
       (couples[i].0 in V && couples[i].1 !in V && r.error == UnknownEndpoint(couples[i].1))))
  {
    var E: map<int, seq<int>> := map x | x in V :: [];
    var i := 0;
    while i < |couples|
      invariant 0 <= i <= |couples|
      invariant EndpointsIn(V, couples[..i])
      invariant E == AdjacencyOf(V, couples[..i])
    {
      var (u, v) := couples[i];
      if u !in E {
        return Err(UnknownEndpoint(u));
      }
      E := E[u := E[u] + [v]];
      if v !in E {
        return Err(UnknownEndpoint(v));
      }
      E := E[v := E[v] + [u]];
      assert couples[..i + 1][..i] == couples[..i];
      i := i + 1;
    }
    assert couples[..i] == couples;
    return Ok(E);
  }

  /**
   * Reference view of the built map: b occurs in a's list once for every pair
   * (a, b) and once for every pair (b, a); a pair (a, a) puts a twice in a's list.
   */
  lemma {:induction false} AdjacencyCounts(V: seq<int>, couples: seq<(int, int)>)
    requires EndpointsIn(V, couples)
    ensures forall a, b :: a in V ==>
      multiset(AdjacencyOf(V, couples)[a])[b] == Occurrences(couples, a, b) + Occurrences(couples, b, a)
    decreases |couples|
  {
    if couples != [] {
      var prefix := couples[..|couples| - 1];
      AdjacencyCounts(V, prefix);
    }
  }

  /** The built map is symmetric: b is listed under a as often as a under b. */
  lemma AdjacencySymmetric(V: seq<int>, couples: seq<(int, int)>)
    requires EndpointsIn(V, couples)
    ensures forall a, b :: a in V && b in V ==>
      multiset(AdjacencyOf(V, couples)[a])[b] == multiset(AdjacencyOf(V, couples)[b])[a]
  {
    AdjacencyCounts(V, couples);
  }

  lemma {:induction false} OccurrencesNoLoops(couples: seq<(int, int)>, a: int)
    requires NoLoops(couples)
    ensures Occurrences(couples, a, a) == 0
    decreases |couples|
  {
    if couples != [] {
      OccurrencesNoLoops(couples[..|couples| - 1], a);
    }
  }

  /** Appending one neighbour to the list of one vertex of a duplicate-free U adds one to the total. */
  lemma {:induction false} TotalDegreeAppend(U: seq<int>, E: map<int, seq<int>>, k: int, x: int)
    requires Distinct(U) && k in E && forall y :: y in U ==> y in E
    ensures TotalDegree(U, E[k := E[k] + [x]]) == TotalDegree(U, E) + (if k in U then 1 else 0)
  {
    if U != [] {
      DistinctTail(U);
      TotalDegreeAppend(U[1..], E, k, x);
    }
  }

  /** With distinct vertices, the list lengths of the built map add up to twice the number of pairs. */
  lemma {:induction false} AdjacencyTotal(V: seq<int>, couples: seq<(int, int)>)
    requires Distinct(V) && EndpointsIn(V, couples)
    ensures TotalDegree(V, AdjacencyOf(V, couples)) == 2 * |couples|
    decreases |couples|
  {
    if couples == [] {
      EmptyListsTotal(V, map x | x in V :: []);
    } else {
      var prefix := couples[..|couples| - 1];
      var last := couples[|couples| - 1];
      AdjacencyTotal(V, prefix);
      var E0 := AdjacencyOf(V, prefix);
      var E1 := E0[last.0 := E0[last.0] + [last.1]];
      TotalDegreeAppend(V, E0, last.0, last.1);
      TotalDegreeAppend(V, E1, last.1, last.0);
    }
  }

  lemma {:induction false} EmptyListsTotal(U: seq<int>, E: map<int, seq<int>>)
    requires forall y :: y in U ==> y in E && E[y] == []
    ensures TotalDegree(U, E) == 0
  {
    if U != [] {
      var u := U[0];
      assert u in U;
      EmptyListsTotal(U[1..], E);
    }
  }

  /**
   * From distinct vertices and pairs between distinct vertices of V, the source
   * builds a well-formed graph.
   */
  lemma AdjacencyWellFormed(V: seq<int>, couples: seq<(int, int)>)
    requires Distinct(V) && EndpointsIn(V, couples) && NoLoops(couples)
    ensures WellFormed(Graph(V, AdjacencyOf(V, couples)))
  {
    var E := AdjacencyOf(V, couples);
    AdjacencyCounts(V, couples);
    forall a | a in E
      ensures a !in E[a]
    {
      OccurrencesNoLoops(couples, a);
      assert multiset(E[a])[a] == 0;
    }
  }
}
