/** Mock expectations, their prerequisites and the three walks over them. */
module Expectations {
  import opened PrerequisiteGraphs

  class Expectation {
    const minCalls: nat
    const maxCalls: nat
    const retiresOnSaturation: bool
    var immediatePrerequisites: set<Expectation>
    var callCount: nat
    var retired: bool

    /** Between(min, max): a negative minimum counts as zero, a maximum below it is raised to it. */
    constructor (min: int, max: int, retiresOnSaturation: bool)
      ensures minCalls == if min >= 0 then min else 0
      ensures maxCalls == if max >= minCalls then max else minCalls
      ensures this.retiresOnSaturation == retiresOnSaturation
      ensures immediatePrerequisites == {} && callCount == 0 && !retired
    {
      var lower := if min >= 0 then min else 0;
      minCalls := lower;
      maxCalls := if max >= lower then max else lower;
      this.retiresOnSaturation := retiresOnSaturation;
      immediatePrerequisites, callCount, retired := {}, 0, false;
    }

    predicate IsSatisfied()
      reads this`callCount
    {
      minCalls <= callCount <= maxCalls
    }

    predicate IsSaturated()
      reads this`callCount
    {
      callCount >= maxCalls
    }

    /** Retires exactly the transitive prerequisites, provided that no expectation was ever retired
        before its own prerequisites. */
    method RetireAllPreRequisites(ghost world: set<Expectation>)
      requires this in world && WellFormed(GraphOf(world))
      requires Closed(GraphOf(world), Retired(world))
      modifies world`retired
      ensures Retired(world) == old(Retired(world)) + All(GraphOf(world), this)
      ensures Closed(GraphOf(world), Retired(world))
    {
      hide Walk, All, WellFormed, Closed, Acyclic;
      ghost var g: Prereqs<Expectation> := GraphOf(world);
      ghost var before: set<Expectation> := Retired(world);
      if retired {
        ClosedHoldsPrerequisites(g, this, before);
        return;
      }
      var expectations := [this];
      WalkStarts(g, this, before);
      while expectations != []
        invariant Walk(g, this, before, Retired(world), expectations, {})
        decreases world - Retired(world), |expectations|
      {
        WalkPops(g, this, before, Retired(world), expectations);
        ghost var retiredAtPop, stackAtPop := Retired(world), expectations;
        var exp := expectations[|expectations| - 1];
        expectations := expectations[..|expectations| - 1];
        var todo := exp.immediatePrerequisites;
        assert todo == g[exp];
        while todo != {}
          invariant todo <= g[exp] <= todo + Retired(world)
          invariant Walk(g, this, before, Retired(world), expectations, {exp})
          invariant retiredAtPop <= Retired(world)
          invariant retiredAtPop == Retired(world) ==> |expectations| < |stackAtPop|
        {
          var next :| next in todo;
          ghost var retiredNow := Retired(world);
          if !next.retired {
            next.retired := true;
            assert Retired(world) == retiredNow + {next};
            WalkCollects(g, this, before, retiredNow, expectations, exp, next, true);
            expectations := expectations + [next];
          }
          todo := todo - {next};
        }
        WalkExpanded(g, this, before, Retired(world), expectations, exp);
      }
      WalkEnds(g, this, before, Retired(world));
      assert GraphOf(world) == g;
    }

    /** True exactly when every transitive prerequisite is satisfied. */
    method AllPrerequisitesAreSatisfied(ghost world: set<Expectation>) returns (ok: bool)
      requires this in world && WellFormed(GraphOf(world)) && Acyclic(GraphOf(world))
      ensures All(GraphOf(world), this) <= world
      ensures ok <==> forall p | p in All(GraphOf(world), this) :: p.minCalls <= p.callCount <= p.maxCalls
    {
      hide Walk, All, WellFormed, Closed, Acyclic, Budget, Cap;
      ghost var g: Prereqs<Expectation> := GraphOf(world);
      ghost var satisfied := Satisfied(world);
      ghost var visited: set<Expectation> := {};
      AllIsClosed(g, this);
      var expectations := [this];
      WalkStarts(g, this, visited);
      while expectations != []
        invariant Walk(g, this, {}, visited, expectations, {})
        invariant visited <= satisfied
        decreases Budget(g, expectations)
      {
        WalkPops(g, this, {}, visited, expectations);
        var exp := expectations[|expectations| - 1];
        ghost var budget := Budget(g, expectations);
        PopWithinBudget(g, expectations);
        expectations := expectations[..|expectations| - 1];
        var todo := exp.immediatePrerequisites;
        assert todo == g[exp];
        while todo != {}
          invariant todo <= g[exp] <= todo + visited
          invariant Walk(g, this, {}, visited, expectations, {exp})
          invariant visited <= satisfied
          invariant Budget(g, expectations) + |todo| * Cap(g, exp) < budget
        {
          var next :| next in todo;
          if !next.IsSatisfied() {
            assert next in All(g, this);
            return false;
          }
          WalkCollects(g, this, {}, visited, expectations, exp, next, true);
          PushWithinBudget(g, expectations, exp, next, |todo|);
          expectations := expectations + [next];
          visited := visited + {next};
          todo := todo - {next};
        }
        WalkExpanded(g, this, {}, visited, expectations, exp);
      }
      WalkEnds(g, this, {}, visited);
      return true;
    }

    /** Adds exactly the unsatisfied prerequisites that are reached through satisfied ones not yet called. */
    method FindUnsatisfiedPrerequisites(ghost world: set<Expectation>, result: set<Expectation>)
      returns (result': set<Expectation>)
      requires this in world && WellFormed(GraphOf(world)) && Acyclic(GraphOf(world))
      ensures result' == result + FirstUnsatisfied(GraphOf(world), this, Satisfied(world), Uncalled(world))
      ensures forall e | e in world :: e in Satisfied(world) <==> e.minCalls <= e.callCount <= e.maxCalls
      ensures forall e | e in world :: e in Uncalled(world) <==> e.callCount == 0
    {
      hide Walk, All, WellFormed, Closed, Acyclic, Budget, Cap;
      ghost var g: Prereqs<Expectation> := GraphOf(world);
      ghost var satisfied: set<Expectation>, uncalled: set<Expectation> := Satisfied(world), Uncalled(world);
      ghost var pruned: Prereqs<Expectation> := Pruned(g, this, satisfied, uncalled);
      ghost var visited: set<Expectation> := {};
      result' := result;
      var expectations := [this];
      WalkStarts(pruned, this, visited);
      NotItsOwnPrerequisite(g, this, satisfied, uncalled);
      while expectations != []
        invariant Walk(pruned, this, {}, visited, expectations, {})
        invariant forall x | x in expectations :: x in g && pruned[x] == g[x]
        invariant result' == result + (visited - satisfied)
        decreases Budget(g, expectations)
      {
        WalkPops(pruned, this, {}, visited, expectations);
        var exp := expectations[|expectations| - 1];
        ghost var budget := Budget(g, expectations);
        PopWithinBudget(g, expectations);
        expectations := expectations[..|expectations| - 1];
        var todo := exp.immediatePrerequisites;
        assert todo == g[exp] == pruned[exp];
        while todo != {}
          invariant todo <= g[exp] <= todo + visited
          invariant Walk(pruned, this, {}, visited, expectations, {exp})
          invariant forall x | x in expectations :: x in g && pruned[x] == g[x]
          invariant result' == result + (visited - satisfied)
          invariant Budget(g, expectations) + |todo| * Cap(g, exp) < budget
        {
          var next :| next in todo;
          PushWithinBudget(g, expectations, exp, next, |todo|);
          CollectUnsatisfied(result, visited, satisfied, next);
          assert |todo - {next}| == |todo| - 1;
          assert next.IsSatisfied() <==> next in satisfied;
          if next.IsSatisfied() {
            assert next.callCount == 0 <==> next in uncalled;
            if next.callCount == 0 {
              WalkCollects(pruned, this, {}, visited, expectations, exp, next, true);
              expectations := expectations + [next];
            } else {
              WalkCollects(pruned, this, {}, visited, expectations, exp, next, false);
            }
          } else {
            WalkCollects(pruned, this, {}, visited, expectations, exp, next, false);
            result' := result' + {next};
          }
          visited := visited + {next};
          todo := todo - {next};
        }
        WalkExpanded(pruned, this, {}, visited, expectations, exp);
      }
      WalkEnds(pruned, this, {}, visited);
    }

    /** Whether this expectation, whose matchers accept the arguments, should handle the call. */
    method ShouldHandleArguments(ghost world: set<Expectation>) returns (ok: bool)
      requires this in world && WellFormed(GraphOf(world)) && Acyclic(GraphOf(world))
      ensures All(GraphOf(world), this) <= world
      ensures ok <==> !retired && forall p | p in All(GraphOf(world), this) :: p.minCalls <= p.callCount <= p.maxCalls
    {
      AllIsClosed(GraphOf(world), this);
      if retired { return false; }
      ok := AllPrerequisitesAreSatisfied(world);
    }

    /** Counts the call and, unless it is excessive, retires what must not be called any more. */
    method GetActionForArguments(ghost world: set<Expectation>) returns (excessive: bool)
      requires this in world && WellFormed(GraphOf(world))
      requires Closed(GraphOf(world), Retired(world))
      modifies this`callCount, world`retired
      ensures excessive == (old(callCount) >= maxCalls) && callCount == old(callCount) + 1
      ensures Retired(world) ==
        if excessive then old(Retired(world))
        else
          old(Retired(world)) + All(GraphOf(world), this) +
          if retiresOnSaturation && callCount >= maxCalls then {this} else {}
    {
      hide All, WellFormed, Closed;
      if IsSaturated() {
        callCount := callCount + 1;
        return true;
      }
      callCount := callCount + 1;
      RetireAllPreRequisites(world);
      ghost var retiredBefore := Retired(world);
      if retiresOnSaturation && IsSaturated() {
        retired := true;
        assert Retired(world) == retiredBefore + {this};
      }
      return false;
    }
  }

  class Sequence {
    var lastExpectation: Expectation?

    constructor ()
      ensures lastExpectation == null
    {
      lastExpectation := null;
    }

    /** Makes the previous last expectation, if any, a prerequisite of the added one. */
    method AddExpectation(expectation: Expectation)
      modifies this, expectation`immediatePrerequisites
      ensures lastExpectation == expectation
      ensures expectation.immediatePrerequisites ==
        old(expectation.immediatePrerequisites) +
        if old(lastExpectation) == null || old(lastExpectation) == expectation then {} else {old(lastExpectation)}
    {
      if lastExpectation != expectation {
        if lastExpectation != null {
          expectation.immediatePrerequisites := expectation.immediatePrerequisites + {lastExpectation};
        }
        lastExpectation := expectation;
      }
    }
  }

  // ----- heap abstractions -----

  ghost function GraphOf(world: set<Expectation>): Prereqs<Expectation>
    reads world`immediatePrerequisites
  {
    map e | e in world :: e.immediatePrerequisites
  }

  ghost function Retired(world: set<Expectation>): set<Expectation>
    reads world`retired
  {
    set e | e in world && e.retired
  }

  ghost function Satisfied(world: set<Expectation>): set<Expectation>
    reads world`callCount
  {
    set e | e in world && e.IsSatisfied()
  }

  ghost function Uncalled(world: set<Expectation>): set<Expectation>
    reads world`callCount
  {
    set e | e in world && e.callCount == 0
  }

  // ----- walks as values -----

  /** The graph without the edges that the search for unsatisfied prerequisites of e does not follow. */
  ghost function Pruned<T>(g: Prereqs<T>, e: T, satisfied: set<T>, uncalled: set<T>): (p: Prereqs<T>)
    ensures p.Keys == g.Keys
    ensures WellFormed(g) ==> WellFormed(p)
  {
    map x | x in g :: if x == e || (x in satisfied && x in uncalled) then g[x] else {}
  }

  ghost function FirstUnsatisfied<T>(g: Prereqs<T>, e: T, satisfied: set<T>, uncalled: set<T>): set<T>
    requires WellFormed(g) && e in g
  {
    All(Pruned(g, e, satisfied, uncalled), e) - satisfied
  }

  lemma CollectUnsatisfied<T>(result: set<T>, visited: set<T>, satisfied: set<T>, next: T)
    ensures result + (visited + {next} - satisfied) ==
      if next in satisfied then result + (visited - satisfied) else result + (visited - satisfied) + {next}
  {
  }

  lemma PrunedIsPart<T>(g: Prereqs<T>, e: T, satisfied: set<T>, uncalled: set<T>)
    requires WellFormed(g) && e in g
    ensures All(Pruned(g, e, satisfied, uncalled), e) <= All(g, e)
  {
    AllIsClosed(g, e);
    ClosureIsLeast(Pruned(g, e, satisfied, uncalled), g[e], All(g, e));
  }

  lemma NotItsOwnPrerequisite<T>(g: Prereqs<T>, e: T, satisfied: set<T>, uncalled: set<T>)
    requires WellFormed(g) && e in g && Acyclic(g)
    ensures e !in All(Pruned(g, e, satisfied, uncalled), e)
  {
    PrunedIsPart(g, e, satisfied, uncalled);
  }

  /** No prerequisite that is satisfied and has been called has an unsatisfied prerequisite itself. */
  ghost predicate CalledAfterPrerequisites<T>(g: Prereqs<T>, satisfied: set<T>, uncalled: set<T>)
    requires WellFormed(g)
  {
    forall p | p in g && p in satisfied && p !in uncalled :: All(g, p) <= satisfied
  }

  /** Pruning the search at called prerequisites hides nothing. */
  lemma FirstUnsatisfiedIsComplete<T>(g: Prereqs<T>, e: T, satisfied: set<T>, uncalled: set<T>)
    requires WellFormed(g) && e in g && CalledAfterPrerequisites(g, satisfied, uncalled)
    ensures FirstUnsatisfied(g, e, satisfied, uncalled) <= All(g, e) - satisfied
    ensures FirstUnsatisfied(g, e, satisfied, uncalled) == {} <==> All(g, e) <= satisfied
  {
    var near := All(Pruned(g, e, satisfied, uncalled), e);
    PrunedIsPart(g, e, satisfied, uncalled);
    if near <= satisfied {
      AllWithinSatisfied(g, e, satisfied, uncalled);
    } else {
      var x :| x in near && x !in satisfied;
      assert x in FirstUnsatisfied(g, e, satisfied, uncalled);
    }
  }

  lemma AllWithinSatisfied<T>(g: Prereqs<T>, e: T, satisfied: set<T>, uncalled: set<T>)
    requires WellFormed(g) && e in g && CalledAfterPrerequisites(g, satisfied, uncalled)
    requires All(Pruned(g, e, satisfied, uncalled), e) <= satisfied
    ensures All(g, e) <= satisfied
  {
    var pruned := Pruned(g, e, satisfied, uncalled);
    var near := All(pruned, e);
    AllIsClosed(pruned, e);
    var far := set x, y | x in near && x in g && x !in uncalled && y in All(g, x) :: y;
    forall x | x in near ensures g[x] <= near + far {
      if x == e || x in uncalled {
        assert pruned[x] == g[x];
      } else {
        AllIsClosed(g, x);
      }
    }
    forall x | x in far && x in g ensures g[x] <= far {
      var w, y :| w in near && w in g && w !in uncalled && y in All(g, w) && y == x;
      AllIsClosed(g, w);
    }
    ClosureIsLeast(g, g[e], near + far);
  }
}
