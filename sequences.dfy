/**
 * Lists of vertices and the two list filters the graph code uses:
 * `[y for y in s if y != x]` and `[y for y in s if y not in W]`.
 */
module Sequences {

  /** No element occurs twice. */
  predicate Distinct(s: seq<int>)
  {
    forall i, j :: 0 <= i < j < |s| ==> s[i] != s[j]
  }

  lemma DistinctTail(s: seq<int>)
    requires s != [] && Distinct(s)
    ensures Distinct(s[1..]) && s[0] !in s[1..]
  {
    forall j | 0 <= j < |s[1..]|
      ensures s[1..][j] != s[0]
    {
      assert s[1..][j] == s[1 + j];
    }
  }

  lemma DistinctCons(x: int, s: seq<int>)
    requires x !in s && Distinct(s)
    ensures Distinct([x] + s)
  {
    var t := [x] + s;
    forall i, j | 0 <= i < j < |t|
      ensures t[i] != t[j]
    {
      assert t[j] == s[j - 1];
      if i > 0 {
        assert t[i] == s[i - 1];
      }
    }
  }

  /** `[y for y in s if y != x]`: every occurrence of x dropped, the rest kept in order. */
  function Without(s: seq<int>, x: int): (r: seq<int>)
    ensures |r| <= |s|
    ensures x in s ==> |r| < |s|
    ensures forall y :: y in r <==> y in s && y != x
  {
    if s == [] then []
    else if s[0] == x then Without(s[1..], x)
    else [s[0]] + Without(s[1..], x)
  }

  /** `[y for y in s if y not in W]`: every element of W dropped, the rest kept in order. */
  function WithoutAll(s: seq<int>, W: seq<int>): (r: seq<int>)
    ensures |r| <= |s|
    ensures forall y :: y in r <==> y in s && y !in W
  {
    if s == [] then []
    else if s[0] in W then WithoutAll(s[1..], W)
    else [s[0]] + WithoutAll(s[1..], W)
  }

  /** Filtering x out removes exactly its occurrences and nothing else. */
  lemma {:induction false} WithoutCount(s: seq<int>, x: int)
    ensures multiset(Without(s, x)) == multiset(s)[x := 0]
  {
    if s != [] {
      WithoutCount(s[1..], x);
      assert s == [s[0]] + s[1..];
    }
  }

  /** The filtered list is shorter by the number of occurrences of x. */
  lemma {:induction false} WithoutLength(s: seq<int>, x: int)
    ensures |Without(s, x)| + multiset(s)[x] == |s|
  {
    if s != [] {
      WithoutLength(s[1..], x);
      assert s == [s[0]] + s[1..];
    }
  }

  /** Filtering out an absent value leaves the list as it was. */
  lemma {:induction false} WithoutAbsent(s: seq<int>, x: int)
    requires x !in s
    ensures Without(s, x) == s
  {
    if s != [] {
      WithoutAbsent(s[1..], x);
      assert s == [s[0]] + s[1..];
    }
  }

  /** Filtering works piecewise, so the kept elements stay in their original order. */
  lemma {:induction false} WithoutConcat(a: seq<int>, b: seq<int>, x: int)
    ensures Without(a + b, x) == Without(a, x) + Without(b, x)
  {
    if a != [] {
      WithoutConcat(a[1..], b, x);
      assert (a + b)[1..] == a[1..] + b;
    } else {
      assert a + b == b;
    }
  }

  /** Filtering keeps a list free of duplicates. */
  lemma {:induction false} WithoutDistinct(s: seq<int>, x: int)
    requires Distinct(s)
    ensures Distinct(Without(s, x))
  {
    if s != [] {
      DistinctTail(s);
      WithoutDistinct(s[1..], x);
      if s[0] != x {
        DistinctCons(s[0], Without(s[1..], x));
      }
    }
  }

  /** Filtering by W removes exactly the occurrences of the members of W and nothing else. */
  lemma {:induction false} WithoutAllCount(s: seq<int>, W: seq<int>)
    ensures forall y :: multiset(WithoutAll(s, W))[y] == if y in W then 0 else multiset(s)[y]
  {
    if s != [] {
      WithoutAllCount(s[1..], W);
      assert s == [s[0]] + s[1..];
    }
  }

  /** The `not in W` filter works piecewise, so the kept elements stay in their original order. */
  lemma {:induction false} WithoutAllConcat(a: seq<int>, b: seq<int>, W: seq<int>)
    ensures WithoutAll(a + b, W) == WithoutAll(a, W) + WithoutAll(b, W)
  {
    if a != [] {
      WithoutAllConcat(a[1..], b, W);
      assert (a + b)[1..] == a[1..] + b;
    } else {
      assert a + b == b;
    }
  }

  /** Filtering by an empty list keeps everything. */
  lemma {:induction false} WithoutAllNone(s: seq<int>)
    ensures WithoutAll(s, []) == s
  {
    if s != [] {
      WithoutAllNone(s[1..]);
      assert s == [s[0]] + s[1..];
    }
  }

  /** Filtering by W and then by w is filtering by W extended with w. */
  lemma {:induction false} WithoutAllSnoc(s: seq<int>, W: seq<int>, w: int)
    ensures Without(WithoutAll(s, W), w) == WithoutAll(s, W + [w])
  {
    if s != [] {
      WithoutAllSnoc(s[1..], W, w);
      assert s[0] in W + [w] <==> s[0] in W || s[0] == w;
    }
  }

  /** Only the members of W matter, not their order or repetitions. */
  lemma {:induction false} WithoutAllSameMembers(s: seq<int>, W1: seq<int>, W2: seq<int>)
    requires forall y :: y in W1 <==> y in W2
    ensures WithoutAll(s, W1) == WithoutAll(s, W2)
  {
    if s != [] {
      WithoutAllSameMembers(s[1..], W1, W2);
    }
  }

  /** Filtering by a list that holds every element leaves nothing. */
  lemma {:induction false} WithoutAllInside(s: seq<int>, W: seq<int>)
    requires forall y :: y in s ==> y in W
    ensures WithoutAll(s, W) == []
  {
    if s != [] {
      var y := s[0];
      assert y in s;
      WithoutAllInside(s[1..], W);
    }
  }

  /** Filtering out u and then the members of W is filtering by u and W together. */
  lemma {:induction false} WithoutAllWithout(s: seq<int>, u: int, W: seq<int>)
    ensures WithoutAll(Without(s, u), W) == WithoutAll(s, [u] + W)
  {
    if s != [] {
      WithoutAllWithout(s[1..], u, W);
      if s[0] != u {
        var t := Without(s[1..], u);
        assert ([s[0]] + t)[0] == s[0] && ([s[0]] + t)[1..] == t;
      }
    }
  }
}
