/** Prerequisite graphs over any kind of node, and the nodes reachable in them. */
module PrerequisiteGraphs {

  /** Each node with its immediate prerequisites. */
  type Prereqs<T> = map<T, set<T>>

  ghost predicate WellFormed<T>(g: Prereqs<T>) {
    forall e | e in g :: g[e] <= g.Keys
  }

  /** xs contains the immediate prerequisites of each of its members. */
  ghost predicate Closed<T>(g: Prereqs<T>, xs: set<T>) {
    forall x | x in xs && x in g :: g[x] <= xs
  }

  ghost function Immediate<T>(g: Prereqs<T>, xs: set<T>): set<T> {
    set x, y | x in xs && x in g && y in g[x] :: y
  }

  /** Adds immediate prerequisites until nothing new appears. */
  ghost function Closure<T>(g: Prereqs<T>, xs: set<T>): set<T>
    requires WellFormed(g) && xs <= g.Keys
    decreases g.Keys - xs
  {
    if Immediate(g, xs) <= xs then xs else Closure(g, xs + Immediate(g, xs))
  }

  lemma {:induction false} ClosureIsClosed<T>(g: Prereqs<T>, xs: set<T>)
    requires WellFormed(g) && xs <= g.Keys
    ensures xs <= Closure(g, xs) <= g.Keys && Closed(g, Closure(g, xs))
    decreases g.Keys - xs
  {
    if Immediate(g, xs) <= xs {
      assert forall x, y | x in xs && x in g && y in g[x] :: y in Immediate(g, xs);
    } else {
      ClosureIsClosed(g, xs + Immediate(g, xs));
    }
  }

  lemma {:induction false} ClosureIsLeast<T>(g: Prereqs<T>, xs: set<T>, c: set<T>)
    requires WellFormed(g) && xs <= g.Keys
    requires xs <= c && Closed(g, c)
    ensures Closure(g, xs) <= c
    decreases g.Keys - xs
  {
    if !(Immediate(g, xs) <= xs) {
      ClosureIsLeast(g, xs + Immediate(g, xs), c);
    }
  }

  /** All transitive prerequisites of e. */
  ghost function All<T>(g: Prereqs<T>, e: T): set<T>
    requires WellFormed(g) && e in g
  {
    Closure(g, g[e])
  }

  lemma AllIsClosed<T>(g: Prereqs<T>, e: T)
    requires WellFormed(g) && e in g
    ensures g[e] <= All(g, e) <= g.Keys && Closed(g, All(g, e))
  {
    ClosureIsClosed(g, g[e]);
  }

  ghost predicate Acyclic<T>(g: Prereqs<T>)
    requires WellFormed(g)
  {
    forall e | e in g :: e !in All(g, e)
  }

  lemma PrerequisitesAreTransitive<T>(g: Prereqs<T>, e: T, p: T)
    requires WellFormed(g) && e in g && p in All(g, e)
    ensures p in g && All(g, p) <= All(g, e)
  {
    AllIsClosed(g, e);
    ClosureIsLeast(g, g[p], All(g, e));
  }

  lemma ClosedHoldsPrerequisites<T>(g: Prereqs<T>, e: T, xs: set<T>)
    requires WellFormed(g) && e in g && e in xs && Closed(g, xs)
    ensures All(g, e) <= xs && xs == xs + All(g, e)
  {
    ClosureIsLeast(g, g[e], xs);
  }

  // ----- new edges -----

  /** Requiring ps as well closes no circle: e is neither among ps nor required by any of them. */
  ghost predicate MayRequire<T>(g: Prereqs<T>, e: T, ps: set<T>)
    requires WellFormed(g)
  {
    ps <= g.Keys && e !in Closure(g, ps)
  }

  /** A graph with more edges has more transitive prerequisites. */
  lemma NewEdgesExtend<T>(g: Prereqs<T>, e: T, ps: set<T>, x: T)
    requires WellFormed(g) && e in g && ps <= g.Keys && x in g
    ensures WellFormed(g[e := g[e] + ps])
    ensures All(g, x) <= All(g[e := g[e] + ps], x)
    ensures Closure(g, ps) <= All(g[e := g[e] + ps], e)
  {
    var h := g[e := g[e] + ps];
    AllIsClosed(h, x);
    ClosureIsLeast(g, g[x], All(h, x));
    AllIsClosed(h, e);
    ClosureIsLeast(g, ps, All(h, e));
  }

  /** What x can require at most after the new edges. */
  lemma NewEdgesBound<T>(g: Prereqs<T>, e: T, ps: set<T>, x: T)
    requires WellFormed(g) && e in g && x in g && MayRequire(g, e, ps)
    ensures WellFormed(g[e := g[e] + ps])
    ensures All(g[e := g[e] + ps], x) <= All(g, x) + if e == x || e in All(g, x) then Closure(g, ps) else {}
  {
    var h := g[e := g[e] + ps];
    var reach := All(g, x) + if e == x || e in All(g, x) then Closure(g, ps) else {};
    AllIsClosed(g, x);
    ClosureIsClosed(g, ps);
    ClosureIsLeast(h, h[x], reach);
  }

  /** Making ps prerequisites of e keeps the graph acyclic exactly when e is neither one of them nor
      a prerequisite of one. */
  lemma NewEdgesKeepAcyclicIff<T>(g: Prereqs<T>, e: T, ps: set<T>)
    requires WellFormed(g) && Acyclic(g) && e in g && ps <= g.Keys
    ensures WellFormed(g[e := g[e] + ps])
    ensures Acyclic(g[e := g[e] + ps]) <==> MayRequire(g, e, ps)
  {
    hide Closure;
    var h := g[e := g[e] + ps];
    NewEdgesExtend(g, e, ps, e);
    if MayRequire(g, e, ps) {
      ClosureIsClosed(g, ps);
      forall x | x in h ensures x !in All(h, x) {
        NewEdgesBound(g, e, ps, x);
        if x in Closure(g, ps) {
          ClosureIsLeast(g, g[x], Closure(g, ps));
        }
      }
    }
  }

  lemma ClosureOfOne<T>(g: Prereqs<T>, l: T)
    requires WellFormed(g) && l in g
    ensures Closure(g, {l}) == {l} + All(g, l)
  {
    AllIsClosed(g, l);
    ClosureIsClosed(g, {l});
    ClosureIsLeast(g, {l}, {l} + All(g, l));
    ClosureIsLeast(g, g[l], Closure(g, {l}));
  }

  // ----- the same relation by paths -----

  /** Each node of the path is an immediate prerequisite of the one before it. */
  ghost predicate IsPath<T>(g: Prereqs<T>, path: seq<T>) {
    && (forall k | 0 <= k < |path| :: path[k] in g)
    && (forall k | 0 <= k < |path| - 1 :: path[k + 1] in g[path[k]])
  }

  lemma {:induction false} PathLeadsToPrerequisite<T>(g: Prereqs<T>, path: seq<T>)
    requires WellFormed(g) && IsPath(g, path) && |path| >= 2
    ensures path[|path| - 1] in All(g, path[0])
  {
    AllIsClosed(g, path[0]);
    if |path| > 2 {
      var shorter := path[..|path| - 1];
      PathLeadsToPrerequisite(g, shorter);
      assert path[|path| - 1] in g[shorter[|shorter| - 1]];
    }
  }

  lemma PrerequisiteHasPath<T>(g: Prereqs<T>, e: T, p: T) returns (path: seq<T>)
    requires WellFormed(g) && e in g && p in All(g, e)
    ensures IsPath(g, path) && |path| >= 2 && path[0] == e && path[|path| - 1] == p
  {
    var before;
    before, path := ClosureMemberHasPath(g, g[e], p);
    path := [e] + path;
    assert forall k | 0 < k < |path| :: path[k] == path[1..][k - 1];
  }

  lemma {:induction false} ClosureMemberHasPath<T>(g: Prereqs<T>, xs: set<T>, p: T) returns (start: T, path: seq<T>)
    requires WellFormed(g) && xs <= g.Keys && p in Closure(g, xs)
    ensures IsPath(g, path) && |path| >= 1 && path[0] == start && start in xs && path[|path| - 1] == p
    decreases g.Keys - xs
  {
    if Immediate(g, xs) <= xs {
      start, path := p, [p];
    } else {
      start, path := ClosureMemberHasPath(g, xs + Immediate(g, xs), p);
      if start !in xs {
        var x, y :| x in xs && x in g && y in g[x] && y == start;
        path := [x] + path;
        assert forall k | 0 < k < |path| :: path[k] == path[1..][k - 1];
        start := x;
      }
    }
  }

  // ----- worklist walks -----

  /** A worklist walk from s in progress. It started from the closed set `base`, has collected
      `visited`, and of every collected node either the node waits on the stack, or it is being
      expanded, or all its immediate prerequisites are collected. */
  ghost predicate Walk<T>(g: Prereqs<T>, s: T, base: set<T>, visited: set<T>, stack: seq<T>, current: set<T>)
    requires WellFormed(g) && s in g
  {
    && base <= visited <= base + All(g, s)
    && current <= visited + {s}
    && (forall x | x in stack :: x in visited + {s})
    && (forall x | x in visited + {s} && x !in stack && x !in current && x in g :: g[x] <= visited)
  }

  lemma WalkStarts<T>(g: Prereqs<T>, s: T, base: set<T>)
    requires WellFormed(g) && s in g && base <= g.Keys && Closed(g, base)
    ensures Walk(g, s, base, base, [s], {})
  {
  }

  lemma WalkPops<T>(g: Prereqs<T>, s: T, base: set<T>, visited: set<T>, stack: seq<T>)
    requires WellFormed(g) && s in g && base <= g.Keys && Closed(g, base)
    requires stack != [] && Walk(g, s, base, visited, stack, {})
    ensures var x := stack[|stack| - 1];
      x in g && g[x] <= g.Keys && g[x] <= base + All(g, s) && Walk(g, s, base, visited, stack[..|stack| - 1], {x})
  {
    AllIsClosed(g, s);
    var x := stack[|stack| - 1];
    assert x in stack;
    assert forall y | y in stack :: y == x || y in stack[..|stack| - 1];
  }

  /** Collecting one immediate prerequisite, and keeping it for later unless it has none. */
  lemma WalkCollects<T>(g: Prereqs<T>, s: T, base: set<T>, visited: set<T>, stack: seq<T>, x: T, next: T, push: bool)
    requires WellFormed(g) && s in g && x in g
    requires Walk(g, s, base, visited, stack, {x}) && next in base + All(g, s)
    requires push || (next in g && g[next] == {}) || next in visited
    ensures Walk(g, s, base, visited + {next}, if push then stack + [next] else stack, {x})
  {
  }

  lemma WalkExpanded<T>(g: Prereqs<T>, s: T, base: set<T>, visited: set<T>, stack: seq<T>, x: T)
    requires WellFormed(g) && s in g && x in g
    requires Walk(g, s, base, visited, stack, {x}) && g[x] <= visited
    ensures Walk(g, s, base, visited, stack, {})
  {
  }

  lemma WalkEnds<T>(g: Prereqs<T>, s: T, base: set<T>, visited: set<T>)
    requires WellFormed(g) && s in g && Walk(g, s, base, visited, [], {})
    ensures visited == base + All(g, s) && Closed(g, visited)
  {
    AllIsClosed(g, s);
    ClosureIsLeast(g, g[s], visited);
  }

  // ----- a bound on walks without a visited set -----

  ghost function Power(base: nat, exponent: nat): (p: nat)
    requires base > 0
    ensures p > 0
  {
    if exponent == 0 then 1 else base * Power(base, exponent - 1)
  }

  ghost function Rank<T>(g: Prereqs<T>, e: T): nat
    requires WellFormed(g) && e in g
  {
    |All(g, e)|
  }

  /** More than the number of pops a walk from e can make. */
  ghost function Weight<T>(g: Prereqs<T>, e: T): nat
    requires WellFormed(g) && e in g
  {
    Power(|g| + 1, Rank(g, e))
  }

  /** An upper bound on the weight of every immediate prerequisite of e. */
  ghost function Cap<T>(g: Prereqs<T>, e: T): nat
    requires WellFormed(g) && e in g
  {
    if Rank(g, e) == 0 then 0 else Power(|g| + 1, Rank(g, e) - 1)
  }

  ghost function Budget<T>(g: Prereqs<T>, stack: seq<T>): nat
    requires WellFormed(g)
  {
    if stack == [] then 0
    else
      var top := stack[|stack| - 1];
      Budget(g, stack[..|stack| - 1]) + if top in g then Weight(g, top) else 0
  }

  lemma ProperSubsetSize<T>(a: set<T>, b: set<T>)
    requires a <= b
    ensures |a| <= |b|
    ensures a != b ==> |a| < |b|
  {
    assert b == a + (b - a);
  }

  lemma {:induction false} PowerMonotone(base: nat, a: nat, b: nat)
    requires base > 0 && a <= b
    ensures Power(base, a) <= Power(base, b)
  {
    if a < b {
      PowerMonotone(base, a, b - 1);
      var p := Power(base, b - 1);
      assert base * p >= p by { TimesPositive(base, p); }
    }
  }

  lemma TimesPositive(a: nat, b: nat)
    requires a > 0
    ensures a * b >= b
  {
  }

  lemma SmallerRankBelow<T>(g: Prereqs<T>, e: T, p: T)
    requires WellFormed(g) && Acyclic(g) && e in g && p in g[e]
    ensures Weight(g, p) <= Cap(g, e)
  {
    AllIsClosed(g, e);
    PrerequisitesAreTransitive(g, e, p);
    ProperSubsetSize(All(g, p), All(g, e));
    assert p in All(g, e) && p !in All(g, p);
    PowerMonotone(|g| + 1, Rank(g, p), Rank(g, e) - 1);
  }

  /** Replacing e by all its immediate prerequisites makes the budget smaller. */
  lemma PrerequisitesFitBudget<T>(g: Prereqs<T>, e: T)
    requires WellFormed(g) && e in g
    ensures |g[e]| * Cap(g, e) + 1 <= Weight(g, e)
  {
    ProperSubsetSize(g[e], g.Keys);
    AllIsClosed(g, e);
    var n, c := |g[e]|, Cap(g, e);
    if Rank(g, e) > 0 {
      assert Weight(g, e) == (|g| + 1) * c;
      assert (|g| + 1) * c == n * c + (|g| + 1 - n) * c;
      TimesPositive(|g| + 1 - n, c);
    }
  }

  lemma PopWithinBudget<T>(g: Prereqs<T>, stack: seq<T>)
    requires WellFormed(g) && stack != [] && stack[|stack| - 1] in g
    ensures var x := stack[|stack| - 1];
      Budget(g, stack[..|stack| - 1]) + |g[x]| * Cap(g, x) < Budget(g, stack)
  {
    PrerequisitesFitBudget(g, stack[|stack| - 1]);
  }

  lemma PushWithinBudget<T>(g: Prereqs<T>, stack: seq<T>, e: T, x: T, pending: nat)
    requires WellFormed(g) && Acyclic(g) && e in g && x in g[e]
    requires pending > 0
    ensures Budget(g, stack + [x]) + (pending - 1) * Cap(g, e) <= Budget(g, stack) + pending * Cap(g, e)
    ensures (pending - 1) * Cap(g, e) <= pending * Cap(g, e)
  {
    SmallerRankBelow(g, e, x);
    assert (stack + [x])[..|stack|] == stack;
    assert pending * Cap(g, e) == (pending - 1) * Cap(g, e) + Cap(g, e);
  }
}
