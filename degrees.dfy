/**
 * Degree queries of complex.py: `degres`, which maps each vertex to the
 * length of its list, and `sommet_degre_maximal`, which scans V in order and
 * keeps the first vertex of strictly greatest positive degree.
 */
module Degrees {
  import opened Wrappers
  import opened Graphs

  /** `degres`: every vertex of V, and nothing else, mapped to the length of its list. */
  function Degrees(G: Graph): (d: map<int, nat>)
    requires HasLists(G)
    ensures forall v :: v in d <==> v in G.V
    ensures forall v :: v in d ==> d[v] == |G.E[v]|
  {
    map v | v in G.V :: |G.E[v]|
  }

  /** Length of the list of v (0 for a vertex without a list, which the source never asks about). */
  function Degree(E: map<int, seq<int>>, v: int): nat
  {
    if v in E then |E[v]| else 0
  }

  /** Greatest list length over the vertices of V, 0 for an empty V. */
  function MaxDegree(V: seq<int>, E: map<int, seq<int>>): (m: nat)
    ensures forall i :: 0 <= i < |V| ==> Degree(E, V[i]) <= m
    ensures m > 0 ==> exists i :: 0 <= i < |V| && Degree(E, V[i]) == m
    decreases |V|
  {
    if V == [] then 0
    else
      var m := MaxDegree(V[..|V| - 1], E);
      if m < Degree(E, V[|V| - 1]) then Degree(E, V[|V| - 1]) else m
  }

  /** Position of the first vertex of V whose list has length d. */
  function IndexOfDegree(V: seq<int>, E: map<int, seq<int>>, d: nat): (i: nat)
    requires exists j :: 0 <= j < |V| && Degree(E, V[j]) == d
    ensures i < |V| && Degree(E, V[i]) == d
    ensures forall j :: 0 <= j < i ==> Degree(E, V[j]) != d
    decreases |V|
  {
    if Degree(E, V[0]) == d then 0
    else
      assert forall j :: 1 <= j < |V| ==> V[1..][j - 1] == V[j];
      1 + IndexOfDegree(V[1..], E, d)
  }

  /** The first vertex of V whose degree is the maximum, or None when that maximum is 0. */
  function FirstMax(V: seq<int>, E: map<int, seq<int>>): Option<int>
  {
    var m := MaxDegree(V, E);
    if m == 0 then None else Some(V[IndexOfDegree(V, E, m)])
  }

  /**
   * Reference answer of `sommet_degre_maximal`: None exactly when no vertex of V
   * has a neighbour (an empty V included); otherwise a vertex of V of greatest
   * positive degree, and the first such in V's order.
   */
  function FirstMaxVertex(G: Graph): (r: Option<int>)
    requires HasLists(G)
    ensures r.None? <==> forall v :: v in G.V ==> Degree(G.E, v) == 0
    ensures r.Some? ==> r.value in G.V && Degree(G.E, r.value) > 0
    ensures r.Some? ==> forall v :: v in G.V ==> Degree(G.E, v) <= Degree(G.E, r.value)
    ensures r.Some? ==> exists i :: (0 <= i < |G.V| && G.V[i] == r.value &&
      forall j :: 0 <= j < i ==> Degree(G.E, G.V[j]) < Degree(G.E, r.value))
  {
    FirstMax(G.V, G.E)
  }

  /** The first occurrence of degree d does not move when more vertices are appended. */
  lemma IndexOfDegreePrefix(V: seq<int>, E: map<int, seq<int>>, d: nat, n: nat)
    requires n <= |V| && exists j :: 0 <= j < n && Degree(E, V[j]) == d
    ensures IndexOfDegree(V[..n], E, d) == IndexOfDegree(V, E, d)
  {
    var j :| 0 <= j < n && Degree(E, V[j]) == d;
    assert V[..n][j] == V[j];
  }

  /** One step of the scan: looking at one more vertex replaces the answer only on a strictly greater degree. */
  lemma FirstMaxStep(V: seq<int>, E: map<int, seq<int>>, i: nat)
    requires i < |V|
    ensures MaxDegree(V[..i + 1], E) ==
      if MaxDegree(V[..i], E) < Degree(E, V[i]) then Degree(E, V[i]) else MaxDegree(V[..i], E)
    ensures FirstMax(V[..i + 1], E) ==
      if MaxDegree(V[..i], E) < Degree(E, V[i]) then Some(V[i]) else FirstMax(V[..i], E)
  {
    var P := V[..i + 1];
    assert P[..i] == V[..i];
    var best := MaxDegree(V[..i], E);
    if best < Degree(E, V[i]) {
      var k := IndexOfDegree(P, E, Degree(E, V[i]));
    } else if best > 0 {
      IndexOfDegreePrefix(P, E, best, i);
    }
  }

  /**
   * `sommet_degre_maximal`: scan V keeping the vertex of strictly greatest degree
   * seen so far; its answer is the reference answer FirstMaxVertex.
   */
  method MaxDegreeVertex(G: Graph) returns (r: Option<int>)
    requires HasLists(G)
    ensures r == FirstMaxVertex(G)
  {
    r := None;
    var best := 0;
    var i := 0;
    while i < |G.V|
      invariant 0 <= i <= |G.V|
      invariant best == MaxDegree(G.V[..i], G.E)
      invariant r == FirstMax(G.V[..i], G.E)
    {
      var v := G.V[i];
      assert v in G.V;
      FirstMaxStep(G.V, G.E, i);
      if best < |G.E[v]| {
        best := |G.E[v]|;
        r := Some(v);
      }
      i := i + 1;
    }
    assert G.V[..i] == G.V;
  }

  /**
   * In a well-formed graph, removing v lowers the degree of every other vertex u
   * by the number of edges between u and v, and leaves the others as they were.
   */
  lemma DegreeAfterRemoval(G: Graph, v: int, u: int)
    requires WellFormed(G) && u in G.V && u != v
    ensures u in Degrees(RemoveVertex(G, v))
    ensures Degrees(RemoveVertex(G, v))[u] + (if v in G.V then multiset(G.E[v])[u] else 0) == Degrees(G)[u]
  {
    RemoveVertexLists(G, v);
    Sequences.WithoutLength(G.E[u], v);
    if v in G.V {
      assert multiset(G.E[u])[v] == multiset(G.E[v])[u];
    } else {
      assert v !in G.E[u];
    }
  }
}
