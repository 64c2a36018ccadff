/** The steps of MockRuns carried out on expectation and sequence objects. */
module MockRegistry {
  import opened PrerequisiteGraphs
  import opened Expectations
  import opened MockRuns
  import opened Options

  ghost function SpecsOf(world: set<Expectation>): map<Expectation, Spec> {
    map e | e in world :: Spec(e.minCalls, e.maxCalls, e.retiresOnSaturation)
  }

  ghost function CallsOf(world: set<Expectation>): map<Expectation, nat>
    reads world`callCount
  {
    map e | e in world :: e.callCount
  }

  lemma OneCallMore(world: set<Expectation>, e: Expectation, calls: map<Expectation, nat>)
    requires calls.Keys == world && e in world && forall x | x in world && x != e :: x.callCount == calls[x]
    ensures CallsOf(world) == calls[e := e.callCount]
  {
  }

  lemma OneRequiresMore(world: set<Expectation>, e: Expectation, g: Prereqs<Expectation>)
    requires g.Keys == world && e in world
    requires forall x | x in world && x != e :: x.immediatePrerequisites == g[x]
    ensures GraphOf(world) == g[e := e.immediatePrerequisites]
  {
  }

  lemma OneDeclared(m: Mocks<Expectation>, world: set<Expectation>, e: Expectation)
    requires Shaped(m) && world == m.born.Keys + {e} && e !in m.born
    requires e.callCount == 0 && e.immediatePrerequisites == {} && !e.retired
    requires forall x | x in m.born ::
      && x.immediatePrerequisites == m.prereqs[x] && x.callCount == m.calls[x] && (x.retired <==> x in m.retired)
      && m.specs[x] == Spec(x.minCalls, x.maxCalls, x.retiresOnSaturation)
    ensures GraphOf(world) == m.prereqs[e := {}] && CallsOf(world) == m.calls[e := 0]
    ensures SpecsOf(world) == m.specs[e := Spec(e.minCalls, e.maxCalls, e.retiresOnSaturation)]
    ensures Retired(world) == m.retired
  {
  }

  lemma DeclaredFields(m: Mocks<Expectation>, e: Expectation)
    requires Shaped(m) && e !in m.born && e.callCount == 0 && e.immediatePrerequisites == {} && !e.retired
    requires m.prereqs == GraphOf(m.born.Keys) && m.calls == CallsOf(m.born.Keys)
    requires m.specs == SpecsOf(m.born.Keys) && m.retired == Retired(m.born.Keys)
    ensures GraphOf(m.born.Keys + {e}) == m.prereqs[e := {}] && CallsOf(m.born.Keys + {e}) == m.calls[e := 0]
    ensures SpecsOf(m.born.Keys + {e}) == m.specs[e := Spec(e.minCalls, e.maxCalls, e.retiresOnSaturation)]
    ensures Retired(m.born.Keys + {e}) == m.retired
  {
    FieldsOf(m.born.Keys);
    OneDeclared(m, m.born.Keys + {e}, e);
  }

  lemma DeclaredView(m: Mocks<Expectation>, e: Expectation, spec: Spec)
    requires Shaped(m) && e !in m.born && spec.minCalls <= spec.maxCalls
    ensures Next(m, MockRuns.Declare(e, spec)) ==
      Mocks(m.prereqs[e := {}], m.born[e := |m.born|], m.specs[e := spec], m.calls[e := 0], m.retired, m.sequences)
    ensures m.born[e := |m.born|].Keys == m.born.Keys + {e}
  {
  }

  /** The histories after e has been added to the one at k, unless it is last there already. */
  ghost function Extended<T>(histories: seq<seq<T>>, e: T, k: nat): seq<seq<T>>
    requires k < |histories|
  {
    var history := histories[k];
    if history != [] && history[|history| - 1] == e then histories else histories[k := history + [e]]
  }

  lemma OrderedView(m: Mocks<Expectation>, e: Expectation, k: nat)
    requires Shaped(m) && e in m.born && k < |m.sequences|
    ensures Sequenced(m, e, k) ==
      m.(prereqs := m.prereqs[e := m.prereqs[e] + Predecessor(m.sequences[k], e)],
        sequences := Extended(m.sequences, e, k))
  {
    NothingMoreRequired(m.prereqs, e);
  }

  lemma NothingMoreRequired(g: Prereqs<Expectation>, e: Expectation)
    requires e in g
    ensures g[e := g[e] + {}] == g
  {
    assert g[e] + {} == g[e];
  }

  lemma HandledView(m: Mocks<Expectation>, e: Expectation, retired: set<Expectation>)
    requires Shaped(m) && e in m.born
    requires retired ==
      if m.calls[e] >= m.specs[e].maxCalls then m.retired
      else
        m.retired + All(m.prereqs, e) +
        if m.specs[e].retiresOnSaturation && m.calls[e] + 1 >= m.specs[e].maxCalls then {e} else {}
    ensures Handle(m, e) == Mocks(m.prereqs, m.born, m.specs, m.calls[e := m.calls[e] + 1], retired, m.sequences)
  {
    hide All;
  }

  lemma FieldsOf(world: set<Expectation>)
    ensures GraphOf(world).Keys == CallsOf(world).Keys == SpecsOf(world).Keys == world
    ensures Retired(world) <= world && forall e | e in world :: e in Retired(world) <==> e.retired
    ensures forall e | e in world :: GraphOf(world)[e] == e.immediatePrerequisites
    ensures forall e | e in world :: CallsOf(world)[e] == e.callCount
    ensures forall e | e in world :: SpecsOf(world)[e] == Spec(e.minCalls, e.maxCalls, e.retiresOnSaturation)
  {
  }

  lemma RecordedIsShaped<T>(m: Mocks<T>)
    requires Recorded(m)
    ensures Shaped(m) && m.prereqs.Keys == m.born.Keys == m.specs.Keys == m.calls.Keys
  {
  }

  lemma DeclarationKeeps<T>(m: Mocks<T>, e: T, spec: Spec)
    requires Recorded(m) && Enabled(m, MockRuns.Declare(e, spec))
    ensures Recorded(Next(m, MockRuns.Declare(e, spec)))
    ensures Inv(m) ==> Inv(Next(m, MockRuns.Declare(e, spec)))
  {
    hide Inv;
    NewcomerKeepsRecorded(m, e, spec);
    if Inv(m) {
      StepKeepsInv(m, MockRuns.Declare(e, spec));
    }
  }

  lemma NewSequenceKeeps<T>(m: Mocks<T>)
    requires Recorded(m)
    ensures Recorded(Next(m, MockRuns.NewSequence)) && (Inv(m) ==> Inv(Next(m, MockRuns.NewSequence)))
  {
    hide Inv;
    NewSequenceKeepsRecorded(m);
    if Inv(m) {
      StepKeepsInv(m, MockRuns.NewSequence);
    }
  }

  lemma SequencingKeeps<T>(m: Mocks<T>, e: T, k: nat)
    requires Recorded(m) && e in m.born && k < |m.sequences|
    ensures Recorded(Sequenced(m, e, k))
    ensures Inv(m) && Enabled(m, MockRuns.InSequence(e, k)) ==> Inv(Sequenced(m, e, k))
  {
    hide Inv, Sequenced, MayRequire;
    OrderingKeepsRecorded(m, e, {}, k);
    if Inv(m) && Enabled(m, MockRuns.InSequence(e, k)) {
      StepKeepsInv(m, MockRuns.InSequence(e, k));
    }
  }

  lemma RequiringKeeps<T>(m: Mocks<T>, e: T, ps: set<T>)
    requires Recorded(m) && e in m.born && ps <= m.born.Keys
    ensures Recorded(Require(m, e, ps))
    ensures Inv(m) && Enabled(m, MockRuns.After(e, ps)) ==> Inv(Require(m, e, ps))
  {
    hide Inv, Require, MayRequire;
    OrderingKeepsRecorded(m, e, ps, 0);
    if Inv(m) && Enabled(m, MockRuns.After(e, ps)) {
      StepKeepsInv(m, MockRuns.After(e, ps));
    }
  }

  lemma NewcomerStaysValid<T>(m: Mocks<T>, e: T, spec: Spec, implicit: Option<nat>)
    requires Shaped(m) && e !in m.born && spec.minCalls <= spec.maxCalls
    requires implicit.Some? ==> implicit.value < |m.sequences|
    ensures Enabled(m, MockRuns.Declare(e, spec))
    ensures var m' := Next(m, MockRuns.Declare(e, spec)); e in m'.born && m'.sequences == m.sequences && Shaped(m')
    ensures Inv(m) && implicit.Some? ==>
      Enabled(Next(m, MockRuns.Declare(e, spec)), MockRuns.InSequence(e, implicit.value))
  {
    hide Inv, All, MayRequire;
    if Inv(m) {
      NewcomerMayBeOrdered(m, e, spec, implicit);
    }
  }

  lemma InvIsShaped<T>(m: Mocks<T>)
    requires Inv(m)
    ensures Shaped(m) && m.prereqs.Keys == m.born.Keys == m.specs.Keys == m.calls.Keys
    ensures WellFormed(m.prereqs) && Closed(m.prereqs, m.retired) && Acyclic(m.prereqs)
  {
  }

  lemma PrereqsOf(world: set<Expectation>)
    ensures GraphOf(world).Keys == world && forall e | e in world :: GraphOf(world)[e] == e.immediatePrerequisites
  {
  }

  lemma CountsOf(world: set<Expectation>)
    ensures CallsOf(world).Keys == SpecsOf(world).Keys == world
    ensures forall e | e in world :: CallsOf(world)[e] == e.callCount
    ensures forall e | e in world :: SpecsOf(world)[e] == Spec(e.minCalls, e.maxCalls, e.retiresOnSaturation)
  {
  }

  class Registry {
    ghost var born: map<Expectation, nat>
    ghost var histories: seq<seq<Expectation>>
    var sequences: seq<Sequence>

    ghost function World(): set<Expectation>
      reads this`born
    {
      born.Keys
    }

    ghost function View(): Mocks<Expectation>
      reads this`born, this`histories, World()
    {
      Mocks(GraphOf(World()), born, SpecsOf(World()), CallsOf(World()), Retired(World()), histories)
    }

    ghost predicate Linked()
      reads this`sequences, this`histories, sequences
    {
      && |histories| == |sequences|
      && (forall i, j | 0 <= i < j < |sequences| :: sequences[i] != sequences[j])
      && (forall k | 0 <= k < |sequences| ::
            sequences[k].lastExpectation == if histories[k] == [] then null else histories[k][|histories[k]| - 1])
    }

    ghost predicate Valid()
      reads this, sequences, World()
    {
      Linked() && Inv(View())
    }

    /** What holds however expectations have been ordered, even too late or in a circle. */
    ghost predicate Consistent()
      reads this, sequences, World()
    {
      Linked() && Recorded(View())
    }

    lemma ValidIsConsistent()
      requires Valid()
      ensures Consistent()
    {
      hide Linked;
      InvIsRecorded(View());
    }

    lemma ViewShouldHandle(m: Mocks<Expectation>, e: Expectation)
      requires m == View() && Shaped(m) && e in born
      ensures All(GraphOf(World()), e) <= World()
      ensures ShouldHandle(m, e) <==>
        !e.retired && forall p | p in All(GraphOf(World()), e) :: p.minCalls <= p.callCount <= p.maxCalls
    {
      hide All;
      AllIsClosed(m.prereqs, e);
    }

    constructor ()
      ensures Valid() && View() == NoMocks() && sequences == []
    {
      born, histories, sequences := map[], [], [];
      new;
      assert View() == NoMocks();
    }

    /** Registers an expectation that has just been constructed. */
    method Declare(e: Expectation)
      requires Consistent() && e !in born
      requires e.immediatePrerequisites == {} && e.callCount == 0 && !e.retired && e.minCalls <= e.maxCalls
      modifies this`born
      ensures Consistent() && (old(Valid()) ==> Valid())
      ensures View() == Next(old(View()), MockRuns.Declare(e, Spec(e.minCalls, e.maxCalls, e.retiresOnSaturation)))
    {
      hide Next, Linked, Inv, Recorded, Shaped, GraphOf, CallsOf, SpecsOf, Retired, All;
      ghost var m: Mocks<Expectation> := View();
      ghost var spec := Spec(e.minCalls, e.maxCalls, e.retiresOnSaturation);
      ghost var step: Step<Expectation> := MockRuns.Declare(e, spec);
      RecordedIsShaped(m);
      DeclarationKeeps(m, e, spec);
      DeclaredView(m, e, spec);
      DeclaredFields(m, e);
      Register(e);
      assert View() == Next(m, step);
    }

    /** Gives e the next position; the objects stay as they are. */
    method Register(e: Expectation)
      modifies this`born
      ensures born == old(born)[e := |old(born)|] && (Linked() <==> old(Linked()))
      ensures GraphOf(World()) == old(GraphOf(World() + {e})) && CallsOf(World()) == old(CallsOf(World() + {e}))
      ensures SpecsOf(World()) == SpecsOf(old(World()) + {e}) && Retired(World()) == old(Retired(World() + {e}))
    {
      ghost var world: set<Expectation> := World() + {e};
      born := born[e := |born|];
      assert World() == world;
    }

    method NewSequence() returns (s: Sequence)
      requires Consistent()
      modifies this`sequences, this`histories
      ensures Consistent() && (old(Valid()) ==> Valid()) && fresh(s) && sequences == old(sequences) + [s]
      ensures View() == Next(old(View()), MockRuns.NewSequence)
    {
      hide Inv, Recorded, Shaped, GraphOf, CallsOf, SpecsOf, Retired, All;
      ghost var m: Mocks<Expectation> := View();
      ghost var step: Step<Expectation> := MockRuns.NewSequence;
      RecordedIsShaped(m);
      NewSequenceKeeps(m);
      s := new Sequence();
      sequences := sequences + [s];
      histories := histories + [[]];
      assert View() == Next(m, step);
    }

    /** Adds e to a sequence object and to its history. */
    method AddToSequence(e: Expectation, k: nat)
      requires Linked() && k < |sequences|
      modifies this`histories, e`immediatePrerequisites, sequences[k]
      ensures Linked() && sequences == old(sequences)
      ensures histories == Extended(old(histories), e, k)
      ensures e.immediatePrerequisites == old(e.immediatePrerequisites) + Predecessor(old(histories)[k], e)
    {
      var history := histories[k];
      sequences[k].AddExpectation(e);
      histories := Extended(histories, e, k);
    }

    /** The sequence step, also where the state machine would not allow it. */
    method InSequence(e: Expectation, k: nat)
      requires Consistent() && e in born && k < |sequences|
      modifies this`histories, e`immediatePrerequisites, sequences[k]
      ensures Consistent() && sequences == old(sequences)
      ensures old(Valid() && Enabled(View(), MockRuns.InSequence(e, k))) ==> Valid()
      ensures View() == Sequenced(old(View()), e, k)
    {
      hide Linked, Inv, Recorded, Shaped, GraphOf, CallsOf, SpecsOf, Retired, All, Predecessor, MayRequire, Extended,
        Sequenced, Enabled;
      ghost var m: Mocks<Expectation> := View();
      RecordedIsShaped(m);
      SameLength();
      SequencingKeeps(m, e, k);
      OrderedView(m, e, k);
      PrereqsOf(World());
      AddToSequence(e, k);
      OneRequiresMore(World(), e, m.prereqs);
      assert View() == Sequenced(m, e, k);
    }

    /** A new expectation enters last, and at the end of the implicit sequence if one is alive. */
    method AddNewExpectation(min: int, max: int, retiresOnSaturation: bool, implicit: Option<nat>)
      returns (e: Expectation)
      requires Consistent() && (implicit.Some? ==> implicit.value < |sequences|)
      modifies this`born, this`histories, sequences
      ensures Consistent() && (old(Valid()) ==> Valid()) && fresh(e) && sequences == old(sequences)
      ensures e.minCalls == (if min >= 0 then min else 0) && e.maxCalls == if max >= e.minCalls then max else e.minCalls
      ensures e.retiresOnSaturation == retiresOnSaturation && e !in old(born)
      ensures View() == WithNewcomer(old(View()), e, Spec(e.minCalls, e.maxCalls, retiresOnSaturation), implicit)
    {
      hide Next, Inv, Enabled, Recorded, Shaped, GraphOf, CallsOf, SpecsOf, Retired, Linked, Sequenced;
      ghost var m: Mocks<Expectation> := View();
      RecordedIsShaped(m);
      SameLength();
      e := new Expectation(min, max, retiresOnSaturation);
      assert View() == m;
      ghost var spec := Spec(e.minCalls, e.maxCalls, retiresOnSaturation);
      NewcomerStaysValid(m, e, spec, implicit);
      Declare(e);
      if implicit.Some? {
        InSequence(e, implicit.value);
      }
    }

    lemma SameLength()
      requires Linked()
      ensures |histories| == |sequences|
    {
    }

    /** The ordering step, also where the state machine would not allow it. */
    method After(e: Expectation, ps: set<Expectation>)
      requires Consistent() && e in born && ps <= World()
      modifies e`immediatePrerequisites
      ensures Consistent()
      ensures old(Valid() && Enabled(View(), MockRuns.After(e, ps))) ==> Valid()
      ensures View() == Require(old(View()), e, ps)
    {
      hide Linked, Inv, Recorded, Shaped, GraphOf, CallsOf, SpecsOf, Retired, All, Enabled;
      ghost var m: Mocks<Expectation> := View();
      RecordedIsShaped(m);
      RequiringKeeps(m, e, ps);
      PrereqsOf(World());
      e.immediatePrerequisites := e.immediatePrerequisites + ps;
      OneRequiresMore(World(), e, m.prereqs);
      assert View() == Require(m, e, ps);
    }

    /** The youngest candidate that should handle a call, if any. */
    method FindMatchingExpectation(candidates: seq<Expectation>) returns (handler: Expectation?)
      requires Valid() && Enabled(View(), MockRuns.Invoke(candidates))
      ensures handler == match Pick(View(), candidates) case None => null case Some(e) => e
    {
      hide Inv, Shaped, All, WellFormed, SatisfiedIn, Linked, ShouldHandle, Acyclic, GraphOf, CallsOf, SpecsOf,
        Retired, Satisfied;
      ghost var m: Mocks<Expectation> := View();
      InvIsShaped(m);
      var i := |candidates|;
      assert candidates[..i] == candidates;
      while i > 0
        invariant 0 <= i <= |candidates|
        invariant Pick(m, candidates) == Pick(m, candidates[..i])
      {
        i := i - 1;
        var exp := candidates[i];
        assert candidates[..i + 1][..i] == candidates[..i];
        ViewShouldHandle(m, exp);
        var ok := exp.ShouldHandleArguments(World());
        if ok {
          return exp;
        }
      }
      return null;
    }

    /** A call goes to the expectation found, which is counted and retires its prerequisites. */
    method Invoke(candidates: seq<Expectation>) returns (handler: Expectation?)
      requires Valid() && Enabled(View(), MockRuns.Invoke(candidates))
      modifies World()
      ensures Valid()
      ensures handler == match Pick(old(View()), candidates) case None => null case Some(e) => e
      ensures View() == Next(old(View()), MockRuns.Invoke(candidates))
    {
      hide Inv, Shaped, GraphOf, CallsOf, SpecsOf, Retired, All, Linked, Pick;
      ghost var m: Mocks<Expectation> := View();
      ghost var step: Step<Expectation> := MockRuns.Invoke(candidates);
      InvIsShaped(m);
      CountsOf(World());
      StepKeepsInv(m, step);
      handler := FindMatchingExpectation(candidates);
      if handler != null {
        var excessive := handler.GetActionForArguments(World());
        OneCallMore(World(), handler, m.calls);
        HandledView(m, handler, Retired(World()));
        hide Handle;
        assert View() == Next(m, step);
      }
    }
  }
}
