/**
 Bipartite graphs, matchings and the counting facts about them. Left nodes are
 elements and right nodes are matchers; a graph is the set of its edges.
 */
module BipartiteGraphs {

  type Edge = (nat, nat)

  datatype Graph = Graph(lhs: nat, rhs: nat, edges: set<Edge>) {
    ghost predicate WellFormed() {
      forall e | e in edges :: e.0 < lhs && e.1 < rhs
    }
  }

  /** A set of edges no two of which share an endpoint. */
  ghost predicate IsMatching(g: Graph, m: set<Edge>) {
    && m <= g.edges
    && forall a, b | a in m && b in m && a != b :: a.0 != b.0 && a.1 != b.1
  }

  ghost predicate IsMaximumMatching(g: Graph, m: set<Edge>) {
    && IsMatching(g, m)
    && forall other | IsMatching(g, other) :: |other| <= |m|
  }

  function Lefts(m: set<Edge>): set<nat> {
    set e | e in m :: e.0
  }

  function Rights(m: set<Edge>): set<nat> {
    set e | e in m :: e.1
  }

  /** The first n node numbers. */
  function Range(n: nat): (s: set<nat>)
    ensures forall k: nat :: k in s <==> k < n
  {
    if n == 0 then {} else Range(n - 1) + {n - 1}
  }

  ghost predicate CoversLeft(g: Graph, m: set<Edge>) {
    Range(g.lhs) <= Lefts(m)
  }

  ghost predicate CoversRight(g: Graph, m: set<Edge>) {
    Range(g.rhs) <= Rights(m)
  }

  function ToSet<T>(s: seq<T>): set<T> {
    set x | x in s
  }

  lemma ToSetAppend<T>(s: seq<T>, x: T)
    requires x !in s
    ensures ToSet(s + [x]) == ToSet(s) + {x}
    ensures |ToSet(s + [x])| == |ToSet(s)| + 1
  {
  }

  ghost predicate Injects<A, B>(f: map<A, B>, into: set<B>) {
    && (forall x | x in f :: f[x] in into)
    && (forall x, y | x in f && y in f && f[x] == f[y] :: x == y)
  }

  lemma {:induction false} InjectionBound<A, B>(f: map<A, B>, into: set<B>)
    requires Injects(f, into)
    ensures |f| <= |into|
    decreases |f|
  {
    if f != map[] {
      var x :| x in f;
      var rest := f - {x};
      assert f.Keys == rest.Keys + {x};
      InjectionBound(rest, into - {f[x]});
    }
  }

  lemma {:induction false} RangeSize(n: nat)
    ensures |Range(n)| == n
  {
    if n != 0 {
      RangeSize(n - 1);
      assert n - 1 !in Range(n - 1);
    }
  }

  /** A subset with as many members as the whole is the whole. */
  lemma SubsetOfEqualSize<T>(a: set<T>, b: set<T>)
    requires a <= b
    ensures |a| <= |b|
    ensures |a| == |b| <==> a == b
  {
    assert b == a + (b - a);
    assert |b| == |a| + |b - a|;
  }

  lemma {:induction false} EndpointCounts(g: Graph, m: set<Edge>)
    requires IsMatching(g, m)
    ensures |Lefts(m)| == |m| == |Rights(m)|
    decreases |m|
  {
    if m == {} {
      assert Lefts(m) == {} && Rights(m) == {};
    } else {
      var e :| e in m;
      var rest := m - {e};
      EndpointCounts(g, rest);
      assert Lefts(m) == Lefts(rest) + {e.0};
      assert Rights(m) == Rights(rest) + {e.1};
    }
  }

  /** A matching covers one side exactly when it has as many edges as that side has nodes. */
  lemma CoverageIsSize(g: Graph, m: set<Edge>)
    requires g.WellFormed() && IsMatching(g, m)
    ensures |m| <= g.lhs && |m| <= g.rhs
    ensures |m| == g.lhs <==> CoversLeft(g, m)
    ensures |m| == g.rhs <==> CoversRight(g, m)
  {
    EndpointCounts(g, m);
    RangeSize(g.lhs);
    RangeSize(g.rhs);
    SubsetOfEqualSize(Lefts(m), Range(g.lhs));
    SubsetOfEqualSize(Rights(m), Range(g.rhs));
  }
}
