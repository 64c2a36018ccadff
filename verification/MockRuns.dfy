/**
 Runs of a set of mocks: expectations are declared, ordered and called. The state machine is
 stated over values; MockRegistry carries it out on objects.
 */
module MockRuns {
  import opened PrerequisiteGraphs
  import opened Expectations
  import opened Options

  datatype Spec = Spec(minCalls: nat, maxCalls: nat, retiresOnSaturation: bool)

  datatype Mocks<T> = Mocks(
    prereqs: Prereqs<T>,
    born: map<T, nat>,          // the position of each expectation in the order of declaration
    specs: map<T, Spec>,
    calls: map<T, nat>,
    retired: set<T>,
    sequences: seq<seq<T>>)     // the expectations added to each sequence, oldest first

  datatype Step<T> =
    | Declare(e: T, spec: Spec)
    | NewSequence
    | InSequence(e: T, k: nat)
    | After(e: T, ps: set<T>)
    | Invoke(candidates: seq<T>)  // the expectations of one mock method that match the arguments

  // ----- one step -----

  ghost predicate Shaped<T>(m: Mocks<T>) {
    && WellFormed(m.prereqs)
    && m.prereqs.Keys == m.born.Keys == m.specs.Keys == m.calls.Keys
    && m.retired <= m.born.Keys
  }

  ghost function SatisfiedIn<T>(m: Mocks<T>): set<T>
    requires Shaped(m)
  {
    set e | e in m.calls && m.specs[e].minCalls <= m.calls[e] <= m.specs[e].maxCalls
  }

  ghost function UncalledIn<T>(m: Mocks<T>): set<T> {
    set e | e in m.calls && m.calls[e] == 0
  }

  /** Active, with every prerequisite satisfied. */
  ghost predicate ShouldHandle<T>(m: Mocks<T>, e: T)
    requires Shaped(m) && e in m.born
  {
    e !in m.retired && All(m.prereqs, e) <= SatisfiedIn(m)
  }

  /** The youngest candidate that should handle the call. */
  ghost function Pick<T>(m: Mocks<T>, candidates: seq<T>): (picked: Option<T>)
    requires Shaped(m) && forall e | e in candidates :: e in m.born
    ensures picked.Some? ==> picked.value in candidates && ShouldHandle(m, picked.value)
    ensures picked.None? ==> forall e | e in candidates :: !ShouldHandle(m, e)
  {
    if candidates == [] then None
    else
      var last := candidates[|candidates| - 1];
      if ShouldHandle(m, last) then Some(last) else Pick(m, candidates[..|candidates| - 1])
  }

  /** With the candidates in the order of their declaration, the one picked is the youngest that should
      handle the call. */
  lemma {:induction false} PickIsYoungest<T>(m: Mocks<T>, candidates: seq<T>, e: T)
    requires Shaped(m) && forall c | c in candidates :: c in m.born
    requires forall i, j | 0 <= i < j < |candidates| :: m.born[candidates[i]] < m.born[candidates[j]]
    requires e in candidates && ShouldHandle(m, e)
    ensures Pick(m, candidates).Some? && m.born[e] <= m.born[Pick(m, candidates).value]
  {
    var last := |candidates| - 1;
    if !ShouldHandle(m, candidates[last]) {
      PickIsYoungest(m, candidates[..last], e);
    }
  }

  ghost predicate Saturated<T>(m: Mocks<T>, e: T)
    requires Shaped(m) && e in m.born
  {
    m.calls[e] >= m.specs[e].maxCalls
  }

  /** The effect of a call handled by e: an excessive call is only counted. */
  ghost function Handle<T>(m: Mocks<T>, e: T): Mocks<T>
    requires Shaped(m) && e in m.born
  {
    var counted := m.(calls := m.calls[e := m.calls[e] + 1]);
    if Saturated(m, e) then counted
    else
      var last := m.specs[e].retiresOnSaturation && Saturated(counted, e);
      counted.(retired := m.retired + All(m.prereqs, e) + if last then {e} else {})
  }

  ghost function Require<T>(m: Mocks<T>, e: T, ps: set<T>): Mocks<T>
    requires e in m.prereqs
  {
    m.(prereqs := m.prereqs[e := m.prereqs[e] + ps])
  }

  /** Neither called nor retired yet. */
  ghost predicate Unused<T>(m: Mocks<T>, e: T)
    requires Shaped(m)
  {
    e in m.born && m.calls[e] == 0 && e !in m.retired
  }

  /** The expectation that e comes after when it is added to the end of a sequence. */
  ghost function Predecessor<T>(history: seq<T>, e: T): set<T> {
    if history == [] || history[|history| - 1] == e then {} else {history[|history| - 1]}
  }

  /** Adding e to a sequence, unless it is the last one there already. */
  ghost function Sequenced<T>(m: Mocks<T>, e: T, k: nat): Mocks<T>
    requires e in m.prereqs && k < |m.sequences|
  {
    var history := m.sequences[k];
    if history != [] && history[|history| - 1] == e then m
    else Require(m, e, Predecessor(history, e)).(sequences := m.sequences[k := history + [e]])
  }

  /** Expectations are ordered before they are used, and without closing a circle. */
  ghost predicate Enabled<T>(m: Mocks<T>, step: Step<T>)
    requires Shaped(m)
  {
    match step
    case Declare(e, spec) => e !in m.born && spec.minCalls <= spec.maxCalls
    case NewSequence => true
    case InSequence(e, k) =>
      k < |m.sequences| && Unused(m, e) && MayRequire(m.prereqs, e, Predecessor(m.sequences[k], e))
    case After(e, ps) => Unused(m, e) && MayRequire(m.prereqs, e, ps)
    case Invoke(candidates) => forall e | e in candidates :: e in m.born
  }

  ghost function Next<T>(m: Mocks<T>, step: Step<T>): Mocks<T>
    requires Shaped(m) && Enabled(m, step)
  {
    match step
    case Declare(e, spec) =>
      m.(prereqs := m.prereqs[e := {}], born := m.born[e := |m.born|], specs := m.specs[e := spec],
        calls := m.calls[e := 0])
    case NewSequence => m.(sequences := m.sequences + [[]])
    case InSequence(e, k) => Sequenced(m, e, k)
    case After(e, ps) => Require(m, e, ps)
    case Invoke(candidates) =>
      var picked := Pick(m, candidates);
      if picked.None? then m else Handle(m, picked.value)
  }

  // ----- what every step keeps -----

  /** Whatever is required or in a sequence has been declared. */
  ghost predicate Recorded<T>(m: Mocks<T>) {
    && Shaped(m)
    && (forall k, i | 0 <= k < |m.sequences| && 0 <= i < |m.sequences[k]| :: m.sequences[k][i] in m.born)
  }

  /** In each sequence, every later expectation transitively requires every earlier one. */
  ghost predicate SequencesOrdered<T>(m: Mocks<T>)
    requires Shaped(m)
  {
    && Recorded(m)
    && (forall k, i, j | 0 <= k < |m.sequences| && 0 <= i < j < |m.sequences[k]| ::
          m.sequences[k][i] in All(m.prereqs, m.sequences[k][j]))
  }

  /** An expectation called within its limit has only retired and satisfied prerequisites. */
  ghost predicate CalledInOrder<T>(m: Mocks<T>)
    requires Shaped(m)
  {
    forall e | e in m.born && m.calls[e] > 0 && m.specs[e].maxCalls > 0 ::
      All(m.prereqs, e) <= m.retired && All(m.prereqs, e) <= SatisfiedIn(m)
  }

  ghost predicate Inv<T>(m: Mocks<T>) {
    && Shaped(m)
    && Acyclic(m.prereqs)
    && Closed(m.prereqs, m.retired)
    && SequencesOrdered(m)
    && CalledInOrder(m)
  }

  /** New edges out of e change the prerequisites of nothing that does not require e. */
  lemma RequireKeepsOthers<T>(m: Mocks<T>, e: T, ps: set<T>, x: T)
    requires Shaped(m) && e in m.born && ps <= m.born.Keys && x in m.born && x != e && e !in All(m.prereqs, x)
    ensures All(Require(m, e, ps).prereqs, x) == All(m.prereqs, x)
  {
    var g, h := m.prereqs, Require(m, e, ps).prereqs;
    AllIsClosed(g, x);
    ClosureIsLeast(h, h[x], All(g, x));
    NewEdgesExtend(g, e, ps, x);
  }

  lemma SequencesStayOrdered<T>(m: Mocks<T>, m': Mocks<T>)
    requires Shaped(m) && Shaped(m') && SequencesOrdered(m)
    requires m'.sequences == m.sequences && m.born.Keys <= m'.born.Keys
    requires forall x | x in m.born :: All(m.prereqs, x) <= All(m'.prereqs, x)
    ensures SequencesOrdered(m')
  {
  }

  lemma CallsStayInOrder<T>(m: Mocks<T>, m': Mocks<T>)
    requires Shaped(m) && Shaped(m') && CalledInOrder(m)
    requires m.retired == m'.retired && m.born.Keys <= m'.born.Keys
    requires forall x | x in m.born :: m'.specs[x] == m.specs[x] && m'.calls[x] == m.calls[x]
    requires forall x | x in m'.born && m'.calls[x] > 0 && m'.specs[x].maxCalls > 0 ::
      x in m.born && All(m'.prereqs, x) == All(m.prereqs, x)
    ensures CalledInOrder(m')
  {
  }

  lemma RequireKeepsInv<T>(m: Mocks<T>, e: T, ps: set<T>)
    requires Inv(m) && Unused(m, e) && MayRequire(m.prereqs, e, ps)
    ensures Inv(Require(m, e, ps))
  {
    hide All, SequencesOrdered, Acyclic, MayRequire, SatisfiedIn;
    var m' := Require(m, e, ps);
    MayRequireKnown(m.prereqs, e, ps);
    NewEdgesKeepAcyclicIff(m.prereqs, e, ps);
    forall x | x in m.born ensures All(m.prereqs, x) <= All(m'.prereqs, x) {
      NewEdgesExtend(m.prereqs, e, ps, x);
    }
    forall x | x in m.born && m.calls[x] > 0 && m.specs[x].maxCalls > 0
      ensures All(m'.prereqs, x) == All(m.prereqs, x) {
      RequireKeepsOthers(m, e, ps, x);
    }
    SequencesStayOrdered(m, m');
    CallsStayInOrder(m, m');
  }

  lemma MayRequireKnown<T>(g: Prereqs<T>, e: T, ps: set<T>)
    requires WellFormed(g) && MayRequire(g, e, ps)
    ensures ps <= g.Keys
  {
  }

  lemma HandleCounts<T>(m: Mocks<T>, e: T)
    requires Shaped(m) && e in m.born
    ensures Shaped(Handle(m, e)) && Handle(m, e).prereqs == m.prereqs
    ensures Handle(m, e).born == m.born && Handle(m, e).specs == m.specs
    ensures m.retired <= Handle(m, e).retired
    ensures !Saturated(m, e) ==> All(m.prereqs, e) <= Handle(m, e).retired
    ensures forall x | x in m.born :: Handle(m, e).calls[x] == m.calls[x] + if x == e then 1 else 0
    ensures forall x | x != e :: x in SatisfiedIn(Handle(m, e)) <==> x in SatisfiedIn(m)
  {
    AllIsClosed(m.prereqs, e);
  }

  /** Prerequisites retire before the expectations that need them. */
  lemma HandleKeepsRetiredClosed<T>(m: Mocks<T>, e: T)
    requires Shaped(m) && Closed(m.prereqs, m.retired) && e in m.born
    ensures Closed(m.prereqs, Handle(m, e).retired)
  {
    AllIsClosed(m.prereqs, e);
  }

  lemma HandleKeepsCalledInOrder<T>(m: Mocks<T>, e: T)
    requires Shaped(m) && Acyclic(m.prereqs) && CalledInOrder(m) && e in m.born && ShouldHandle(m, e)
    ensures Shaped(Handle(m, e)) && CalledInOrder(Handle(m, e))
  {
    hide All;
    var m' := Handle(m, e);
    HandleCounts(m, e);
    forall x | x in m.born && m'.calls[x] > 0 && m.specs[x].maxCalls > 0
      ensures All(m.prereqs, x) <= m'.retired && All(m.prereqs, x) <= SatisfiedIn(m')
    {
      if x != e || m.calls[e] > 0 {
        assert e !in All(m.prereqs, x);
      }
    }
  }

  lemma HandleKeepsInv<T>(m: Mocks<T>, e: T)
    requires Inv(m) && e in m.born && ShouldHandle(m, e)
    ensures Inv(Handle(m, e))
  {
    hide All, Saturated, SequencesOrdered, CalledInOrder, SatisfiedIn;
    HandleCounts(m, e);
    HandleKeepsRetiredClosed(m, e);
    HandleKeepsCalledInOrder(m, e);
    SequencesStayOrdered(m, Handle(m, e));
  }

  /** A node without prerequisites added to the graph. */
  lemma LeafAdded<T>(g: Prereqs<T>, e: T, x: T)
    requires WellFormed(g) && e !in g && x in g
    ensures WellFormed(g[e := {}]) && All(g[e := {}], x) == All(g, x)
  {
    var h := g[e := {}];
    AllIsClosed(g, x);
    ClosureIsLeast(h, h[x], All(g, x));
    AllIsClosed(h, x);
    ClosureIsLeast(g, g[x], All(h, x));
  }

  lemma LeafKeepsClosed<T>(g: Prereqs<T>, e: T, xs: set<T>)
    requires WellFormed(g) && e !in g && xs <= g.Keys && Closed(g, xs)
    ensures WellFormed(g[e := {}]) && Closed(g[e := {}], xs)
  {
  }

  lemma LeafKeepsAcyclic<T>(g: Prereqs<T>, e: T)
    requires WellFormed(g) && e !in g && Acyclic(g)
    ensures WellFormed(g[e := {}]) && Acyclic(g[e := {}])
  {
    var h := g[e := {}];
    forall x | x in h ensures x !in All(h, x) {
      if x == e {
        ClosureIsLeast(h, h[e], {});
      } else {
        LeafAdded(g, e, x);
      }
    }
  }

  lemma DeclareKeepsInv<T>(m: Mocks<T>, e: T, spec: Spec)
    requires Inv(m) && Enabled(m, Declare(e, spec))
    ensures Inv(Next(m, Declare(e, spec)))
  {
    hide All, SequencesOrdered, CalledInOrder, Acyclic, Closed, SatisfiedIn;
    var m' := Next(m, Declare(e, spec));
    LeafKeepsClosed(m.prereqs, e, m.retired);
    LeafKeepsAcyclic(m.prereqs, e);
    forall x | x in m.born ensures All(m'.prereqs, x) == All(m.prereqs, x) {
      LeafAdded(m.prereqs, e, x);
    }
    SequencesStayOrdered(m, m');
    CallsStayInOrder(m, m');
  }

  lemma InSequenceKeepsOrder<T>(m: Mocks<T>, e: T, k: nat, history: seq<T>)
    requires Shaped(m) && SequencesOrdered(m) && k < |m.sequences| && history == m.sequences[k] && e in m.born
    requires history != [] ==>
      history[|history| - 1] in All(m.prereqs, e) && All(m.prereqs, history[|history| - 1]) <= All(m.prereqs, e)
    ensures SequencesOrdered(m.(sequences := m.sequences[k := history + [e]]))
  {
  }

  lemma InSequenceKeepsInv<T>(m: Mocks<T>, e: T, k: nat)
    requires Inv(m) && Enabled(m, InSequence(e, k))
    ensures Inv(Next(m, InSequence(e, k)))
  {
    hide All, SequencesOrdered, CalledInOrder, SatisfiedIn, Acyclic, MayRequire, Closed;
    var history := m.sequences[k];
    if history == [] || history[|history| - 1] != e {
      var ps := Predecessor(history, e);
      var ordered := Require(m, e, ps);
      RequireKeepsInv(m, e, ps);
      PredecessorIsRequired(ordered, e, history);
      InSequenceKeepsOrder(ordered, e, k, history);
      CallsStayInOrder(ordered, Next(m, InSequence(e, k)));
    }
  }

  lemma PredecessorIsRequired<T>(m: Mocks<T>, e: T, history: seq<T>)
    requires Shaped(m) && e in m.born && Predecessor(history, e) <= m.prereqs[e]
    requires history == [] || history[|history| - 1] != e
    ensures history != [] ==>
      history[|history| - 1] in All(m.prereqs, e) && All(m.prereqs, history[|history| - 1]) <= All(m.prereqs, e)
  {
    AllIsClosed(m.prereqs, e);
    if history != [] {
      PrerequisitesAreTransitive(m.prereqs, e, history[|history| - 1]);
    }
  }

  /** Every enabled step keeps the invariant. */
  lemma StepKeepsInv<T>(m: Mocks<T>, step: Step<T>)
    requires Inv(m) && Enabled(m, step)
    ensures Inv(Next(m, step))
  {
    hide All, CalledInOrder, SatisfiedIn;
    match step
    case Declare(e, spec) => DeclareKeepsInv(m, e, spec);
    case NewSequence => CallsStayInOrder(m, Next(m, step));
    case InSequence(e, k) => InSequenceKeepsInv(m, e, k);
    case After(e, ps) => RequireKeepsInv(m, e, ps);
    case Invoke(candidates) =>
      var picked := Pick(m, candidates);
      if picked.Some? {
        HandleKeepsInv(m, picked.value);
      }
  }

  /** Ordering an expectation that has been declared never involves one that has not, even where
      the step is not enabled. */
  lemma OrderingKeepsRecorded<T>(m: Mocks<T>, e: T, ps: set<T>, k: nat)
    requires Recorded(m) && e in m.born
    ensures ps <= m.born.Keys ==> Recorded(Require(m, e, ps))
    ensures k < |m.sequences| ==> Recorded(Sequenced(m, e, k))
  {
  }

  lemma InvIsRecorded<T>(m: Mocks<T>)
    requires Inv(m)
    ensures Recorded(m)
  {
  }

  lemma NewSequenceKeepsRecorded<T>(m: Mocks<T>)
    requires Recorded(m)
    ensures Recorded(Next(m, NewSequence))
  {
  }

  lemma NewcomerKeepsRecorded<T>(m: Mocks<T>, e: T, spec: Spec)
    requires Recorded(m) && Enabled(m, Declare(e, spec))
    ensures Recorded(Next(m, Declare(e, spec)))
  {
  }

  // ----- whole runs -----

  ghost function NoMocks<T>(): (m: Mocks<T>)
    ensures Inv(m) && DeclaredInTurn(m)
  {
    Mocks(map[], map[], map[], map[], {}, [])
  }

  /** One enabled step, with the invariant it keeps. */
  ghost function Advance<T>(m: Mocks<T>, step: Step<T>): (m': Mocks<T>)
    requires Inv(m) && Enabled(m, step)
    ensures Inv(m')
  {
    StepKeepsInv(m, step);
    Next(m, step)
  }

  ghost predicate Runs<T>(m: Mocks<T>, steps: seq<Step<T>>)
    requires Inv(m)
    decreases |steps|
  {
    steps == [] || (Enabled(m, steps[0]) && (hide *; Runs(Advance(m, steps[0]), steps[1..])))
  }

  /** The state after a run; the invariant holds there. */
  ghost function Final<T>(m: Mocks<T>, steps: seq<Step<T>>): (f: Mocks<T>)
    requires Inv(m) && Runs(m, steps)
    ensures Inv(f)
    decreases |steps|
  {
    hide Inv, Next, Enabled, Advance;
    if steps == [] then m else Final(Advance(m, steps[0]), steps[1..])
  }

  /** Some call of the run is handled by e. */
  ghost predicate HandledBy<T>(m: Mocks<T>, steps: seq<Step<T>>, e: T)
    requires Inv(m) && Runs(m, steps)
    decreases |steps|
  {
    && steps != []
    && (Handles(m, steps[0], e) || (hide Inv, Next, Enabled, Advance; HandledBy(Advance(m, steps[0]), steps[1..], e)))
  }

  ghost predicate Handles<T>(m: Mocks<T>, step: Step<T>, e: T)
    requires Inv(m) && Enabled(m, step)
  {
    step.Invoke? && Pick(m, step.candidates) == Some(e)
  }

  lemma RetiredIsLeftAlone<T>(m: Mocks<T>, step: Step<T>, e: T)
    requires Inv(m) && Enabled(m, step) && e in m.retired
    ensures var m' := Advance(m, step);
      && Shaped(m') && e in m'.retired && m'.calls[e] == m.calls[e] && m'.specs[e] == m.specs[e]
    ensures !Handles(m, step, e)
  {
    hide All, WellFormed, Closed, Acyclic, SequencesOrdered, CalledInOrder, SatisfiedIn;
    match step
    case Declare(d, spec) => assert d != e;
    case NewSequence =>
    case InSequence(d, k) =>
    case After(d, ps) =>
    case Invoke(candidates) =>
      var picked := Pick(m, candidates);
      if picked.Some? {
        HandleCounts(m, picked.value);
      }
  }

  lemma StepCounts<T>(m: Mocks<T>, step: Step<T>, e: T)
    requires Inv(m) && Enabled(m, step) && e in m.born
    ensures e in Next(m, step).born && e in Next(m, step).calls
    ensures Next(m, step).calls[e] == m.calls[e] + if Handles(m, step, e) then 1 else 0
  {
    hide All, WellFormed, Closed, Acyclic, SequencesOrdered, CalledInOrder, SatisfiedIn;
    match step
    case Declare(d, spec) => assert d != e;
    case NewSequence =>
    case InSequence(d, k) =>
    case After(d, ps) =>
    case Invoke(candidates) =>
      var picked := Pick(m, candidates);
      if picked.Some? {
        HandleCounts(m, picked.value);
      }
  }

  /** A call count never falls, and it grows over a run exactly when the expectation handles a call. */
  lemma {:induction false} CountGrowsExactlyWhenHandled<T>(m: Mocks<T>, steps: seq<Step<T>>, e: T)
    requires Inv(m) && Runs(m, steps) && e in m.born
    ensures e in Final(m, steps).calls && m.calls[e] <= Final(m, steps).calls[e]
    ensures HandledBy(m, steps, e) <==> m.calls[e] < Final(m, steps).calls[e]
    decreases |steps|
  {
    hide Next, Enabled, Handles, Closed, Acyclic, SequencesOrdered, CalledInOrder;
    if steps != [] {
      StepCounts(m, steps[0], e);
      CountGrowsExactlyWhenHandled(Advance(m, steps[0]), steps[1..], e);
    }
  }

  /** Once retired, an expectation handles no call and keeps its call count for the rest of the run. */
  lemma {:induction false} RetiredForever<T>(m: Mocks<T>, steps: seq<Step<T>>, e: T)
    requires Inv(m) && Runs(m, steps) && e in m.retired
    ensures !HandledBy(m, steps, e)
    ensures var f := Final(m, steps); e in f.retired && f.calls[e] == m.calls[e] && f.specs[e] == m.specs[e]
    decreases |steps|
  {
    hide Next, Enabled, Advance, Closed, Acyclic, SequencesOrdered, CalledInOrder;
    if steps != [] {
      RetiredIsLeftAlone(m, steps[0], e);
      RetiredForever(Advance(m, steps[0]), steps[1..], e);
    }
  }

  /** The promise of After and InSequence: when e has been called within its limit, each of its
      transitive prerequisites has been called as often as it asks for, and no later call ever goes to it. */
  lemma OrderIsEnforced<T>(m: Mocks<T>, steps: seq<Step<T>>, e: T, p: T)
    requires Inv(m) && Runs(m, steps)
    requires e in m.born && m.calls[e] > 0 && m.specs[e].maxCalls > 0 && p in All(m.prereqs, e)
    ensures !HandledBy(m, steps, p)
    ensures p in m.born && m.specs[p].minCalls <= m.calls[p] <= m.specs[p].maxCalls
    ensures var f := Final(m, steps);
      p in f.born && f.calls[p] == m.calls[p] && f.specs[p].minCalls <= f.calls[p] <= f.specs[p].maxCalls
  {
    hide All;
    RetiredForever(m, steps, p);
  }

  lemma SequenceIsEnforced<T>(m: Mocks<T>, steps: seq<Step<T>>, k: nat, i: nat, j: nat)
    requires Inv(m) && Runs(m, steps) && k < |m.sequences| && i < j < |m.sequences[k]|
    requires var later := m.sequences[k][j]; m.calls[later] > 0 && m.specs[later].maxCalls > 0
    ensures !HandledBy(m, steps, m.sequences[k][i])
    ensures var p, f := m.sequences[k][i], Final(m, steps);
      && m.specs[p].minCalls <= m.calls[p] <= m.specs[p].maxCalls
      && p in f.born && f.calls[p] == m.calls[p] && f.specs[p].minCalls <= f.calls[p] <= f.specs[p].maxCalls
  {
    hide All;
    OrderIsEnforced(m, steps, m.sequences[k][j], m.sequences[k][i]);
  }

  ghost function Report<T>(m: Mocks<T>, e: T): set<T>
    requires Shaped(m) && e in m.born
  {
    FirstUnsatisfied(m.prereqs, e, SatisfiedIn(m), UncalledIn(m))
  }

  /** In every state of a run the report of unsatisfied prerequisites is empty exactly when
      all transitive prerequisites have been called as often as they ask for. */
  lemma ReportIsComplete<T>(m: Mocks<T>, e: T)
    requires Inv(m) && e in m.born
    ensures All(m.prereqs, e) <= m.born.Keys
    ensures Report(m, e) == {} <==>
      forall p | p in All(m.prereqs, e) :: m.specs[p].minCalls <= m.calls[p] <= m.specs[p].maxCalls
  {
    hide All, FirstUnsatisfied;
    AllIsClosed(m.prereqs, e);
    FirstUnsatisfiedIsComplete(m.prereqs, e, SatisfiedIn(m), UncalledIn(m));
  }

  /** A path of prerequisites from e that passes only through expectations that were never called and need
      not be. */
  ghost predicate IsOpenPath<T>(m: Mocks<T>, path: seq<T>)
    requires Shaped(m)
  {
    && |path| >= 2 && IsPath(m.prereqs, path)
    && forall k | 0 < k < |path| - 1 :: m.calls[path[k]] == 0 && m.specs[path[k]].minCalls == 0
  }

  /** What is reported: the expectations with a wrong number of calls at the end of such paths. */
  lemma ReportedHasPath<T>(m: Mocks<T>, e: T, x: T) returns (path: seq<T>)
    requires Shaped(m) && e in m.born && x in Report(m, e)
    ensures x in m.born && !(m.specs[x].minCalls <= m.calls[x] <= m.specs[x].maxCalls)
    ensures IsOpenPath(m, path) && path[0] == e && path[|path| - 1] == x
  {
    hide All;
    var pruned := Pruned(m.prereqs, e, SatisfiedIn(m), UncalledIn(m));
    AllIsClosed(pruned, e);
    path := PrerequisiteHasPath(pruned, e, x);
    path := FromLast(pruned, path, e);
    forall k | 0 < k < |path| - 1 ensures m.calls[path[k]] == 0 && m.specs[path[k]].minCalls == 0 {
      assert path[k + 1] in pruned[path[k]];
    }
  }

  lemma PathsEndIsReported<T>(m: Mocks<T>, path: seq<T>)
    requires Shaped(m) && IsOpenPath(m, path)
    requires var x := path[|path| - 1]; !(m.specs[x].minCalls <= m.calls[x] <= m.specs[x].maxCalls)
    ensures path[|path| - 1] in Report(m, path[0])
  {
    hide All;
    var pruned := Pruned(m.prereqs, path[0], SatisfiedIn(m), UncalledIn(m));
    PathLeadsToPrerequisite(pruned, path);
  }

  /** The part of a path from the last visit to e on. */
  lemma {:induction false} FromLast<T>(g: Prereqs<T>, path: seq<T>, e: T) returns (rest: seq<T>)
    requires IsPath(g, path) && |path| >= 2 && path[0] == e
    ensures IsPath(g, rest) && |rest| >= 2 && rest[0] == e && rest[|rest| - 1] == path[|path| - 1]
    ensures forall k | 0 < k < |rest| - 1 :: rest[k] != e
  {
    if k :| 0 < k < |path| - 1 && path[k] == e {
      assert forall j | 0 <= j < |path| - k :: path[k..][j] == path[k + j];
      rest := FromLast(g, path[k..], e);
    } else {
      rest := path;
    }
  }

  // ----- expectations ordered only while they are the newest -----

  ghost predicate Newest<T>(m: Mocks<T>, e: T)
    requires Shaped(m)
  {
    e in m.born && forall x | x in m.born && x != e :: m.born[x] < m.born[e]
  }

  ghost predicate OlderFirst<T>(g: Prereqs<T>, born: map<T, nat>)
    requires WellFormed(g) && g.Keys == born.Keys
  {
    forall e, p | e in g && p in g[e] :: born[p] < born[e]
  }

  /** Everything that an expectation requires was declared before it. */
  ghost predicate DeclaredInTurn<T>(m: Mocks<T>)
    requires Shaped(m)
  {
    (forall e | e in m.born :: m.born[e] < |m.born|) && OlderFirst(m.prereqs, m.born)
  }

  /** The step orders an expectation, but only the newest one, and only after others. */
  ghost predicate OrdersTheNewest<T>(m: Mocks<T>, step: Step<T>)
    requires Shaped(m)
  {
    match step
    case InSequence(e, k) => k < |m.sequences| && Newest(m, e) && Predecessor(m.sequences[k], e) <= m.born.Keys
    case After(e, ps) => Newest(m, e) && ps <= m.born.Keys - {e}
    case _ => false
  }

  lemma PrerequisitesAreOlder<T>(m: Mocks<T>, e: T, ps: set<T>)
    requires Shaped(m) && DeclaredInTurn(m) && Newest(m, e) && ps <= m.born.Keys - {e}
    ensures MayRequire(m.prereqs, e, ps)
  {
    var older := m.born.Keys - {e};
    forall x, p | x in older && p in m.prereqs[x] ensures p in older {
      assert m.born[p] < m.born[x] < m.born[e];
    }
    ClosureIsLeast(m.prereqs, ps, older);
  }

  lemma NewestStaysInTurn<T>(m: Mocks<T>, e: T, ps: set<T>)
    requires Shaped(m) && DeclaredInTurn(m) && Newest(m, e) && ps <= m.born.Keys - {e}
    ensures Shaped(Require(m, e, ps)) && DeclaredInTurn(Require(m, e, ps))
  {
  }

  lemma SequencesDoNotMatter<T>(m: Mocks<T>, sequences: seq<seq<T>>)
    requires Shaped(m) && DeclaredInTurn(m)
    ensures Shaped(m.(sequences := sequences)) && DeclaredInTurn(m.(sequences := sequences))
  {
  }

  lemma NotItsOwnPredecessor<T>(m: Mocks<T>, step: Step<T>)
    requires Shaped(m) && OrdersTheNewest(m, step)
    ensures Newest(m, step.e) && step.e in m.prereqs
    ensures (if step.After? then step.ps else Predecessor(m.sequences[step.k], step.e)) <= m.born.Keys - {step.e}
  {
  }

  /** Ordering the newest expectation never closes a circle, so while it is unused the step is enabled,
      and afterwards everything required is still older. */
  lemma TheNewestMayBeOrdered<T>(m: Mocks<T>, step: Step<T>)
    requires Shaped(m) && DeclaredInTurn(m) && OrdersTheNewest(m, step)
    ensures Unused(m, step.e) ==> Enabled(m, step) && Shaped(Next(m, step)) && DeclaredInTurn(Next(m, step))
  {
    hide MayRequire, DeclaredInTurn, Shaped, Newest, Require;
    var ps := if step.After? then step.ps else Predecessor(m.sequences[step.k], step.e);
    NotItsOwnPredecessor(m, step);
    PrerequisitesAreOlder(m, step.e, ps);
    NewestStaysInTurn(m, step.e, ps);
    if step.InSequence? {
      SequencesDoNotMatter(m, m.sequences[step.k := m.sequences[step.k] + [step.e]]);
      SequencesDoNotMatter(Require(m, step.e, ps), m.sequences[step.k := m.sequences[step.k] + [step.e]]);
    }
  }

  lemma OnlyTheGraphMatters<T>(m: Mocks<T>, m': Mocks<T>)
    requires Shaped(m) && DeclaredInTurn(m) && Shaped(m') && m'.prereqs == m.prereqs && m'.born == m.born
    ensures DeclaredInTurn(m')
  {
  }

  lemma AppendedLast<T>(g: Prereqs<T>, born: map<T, nat>, e: T)
    requires WellFormed(g) && g.Keys == born.Keys && e !in born
    requires OlderFirst(g, born) && forall x | x in born :: born[x] < |born|
    ensures var g', born' := g[e := {}], born[e := |born|];
      && WellFormed(g') && g'.Keys == born'.Keys && OlderFirst(g', born')
      && forall x | x in born' :: born'[x] < |born'|
  {
    assert born[e := |born|].Keys == born.Keys + {e};
  }

  lemma DeclarationIsInTurn<T>(m: Mocks<T>, e: T, spec: Spec)
    requires Shaped(m) && DeclaredInTurn(m) && Enabled(m, Declare(e, spec))
    ensures Shaped(Next(m, Declare(e, spec))) && DeclaredInTurn(Next(m, Declare(e, spec)))
  {
    hide OlderFirst, WellFormed;
    AppendedLast(m.prereqs, m.born, e);
  }

  /** The discipline: an expectation is ordered only while it is the newest and unused, and only after
      others. Nothing is said about circles. */
  ghost predicate InTurn<T>(m: Mocks<T>, step: Step<T>)
    requires Shaped(m)
  {
    match step
    case InSequence(e, k) => k < |m.sequences| && Newest(m, e) && Unused(m, e)
    case After(e, ps) => Newest(m, e) && Unused(m, e) && ps <= m.born.Keys - {e}
    case _ => Enabled(m, step)
  }

  /** A disciplined step is always possible and keeps the discipline's order. */
  lemma InTurnStepIsEnabled<T>(m: Mocks<T>, step: Step<T>)
    requires Inv(m) && DeclaredInTurn(m) && InTurn(m, step)
    ensures Enabled(m, step) && Shaped(Next(m, step)) && DeclaredInTurn(Next(m, step))
  {
    hide DeclaredInTurn, Newest, Shaped, Acyclic, Closed, SequencesOrdered, CalledInOrder, MayRequire, All;
    match step
    case Declare(e, spec) => DeclarationIsInTurn(m, e, spec);
    case NewSequence => SequencesDoNotMatter(m, m.sequences + [[]]);
    case InSequence(e, k) =>
      PredecessorIsDeclared(m, e, k);
      TheNewestMayBeOrdered(m, step);
    case After(_, _) => TheNewestMayBeOrdered(m, step);
    case Invoke(candidates) =>
      StepKeepsInv(m, step);
      var picked := Pick(m, candidates);
      if picked.Some? {
        HandleCounts(m, picked.value);
      }
      OnlyTheGraphMatters(m, Next(m, step));
  }

  /** Whatever has just been declared may be ordered after any others, in any sequence. */
  lemma NewcomerIsInTurn<T>(m: Mocks<T>, e: T, spec: Spec, ps: set<T>, k: nat)
    requires Inv(m) && DeclaredInTurn(m) && Enabled(m, Declare(e, spec)) && ps <= m.born.Keys && k < |m.sequences|
    ensures var m' := Next(m, Declare(e, spec));
      Shaped(m') && InTurn(m', After(e, ps)) && InTurn(m', InSequence(e, k))
  {
    hide All, OlderFirst, Acyclic, Closed, SequencesOrdered, CalledInOrder, MayRequire;
    DeclarationIsInTurn(m, e, spec);
  }

  lemma PredecessorIsDeclared<T>(m: Mocks<T>, e: T, k: nat)
    requires Shaped(m) && SequencesOrdered(m) && k < |m.sequences|
    ensures Predecessor(m.sequences[k], e) <= m.born.Keys
  {
    var history := m.sequences[k];
    if history != [] {
      assert m.sequences[k][|history| - 1] in m.born;
    }
  }

  lemma LeafIsRequiredByNothing<T>(g: Prereqs<T>, e: T, ps: set<T>)
    requires WellFormed(g) && e !in g && ps <= g.Keys
    ensures WellFormed(g[e := {}]) && MayRequire(g[e := {}], e, ps)
  {
    ClosureIsLeast(g[e := {}], ps, g.Keys);
  }

  /** An expectation that has just been declared may be added to any sequence. */
  lemma NewcomerMayBeOrdered<T>(m: Mocks<T>, e: T, spec: Spec, implicit: Option<nat>)
    requires Inv(m) && e !in m.born && spec.minCalls <= spec.maxCalls
    requires implicit.Some? ==> implicit.value < |m.sequences|
    ensures Enabled(m, Declare(e, spec)) && Inv(Next(m, Declare(e, spec)))
    ensures implicit.Some? ==> Enabled(Next(m, Declare(e, spec)), InSequence(e, implicit.value))
  {
    hide MayRequire, All, Acyclic, Closed, SequencesOrdered, CalledInOrder;
    StepKeepsInv(m, Declare(e, spec));
    if implicit.Some? {
      PredecessorIsDeclared(m, e, implicit.value);
      LeafIsRequiredByNothing(m.prereqs, e, Predecessor(m.sequences[implicit.value], e));
    }
  }

  /** A new expectation, at the end of the implicit sequence if one is alive. */
  ghost function WithNewcomer<T>(m: Mocks<T>, e: T, spec: Spec, implicit: Option<nat>): Mocks<T>
    requires Shaped(m) && e !in m.born && spec.minCalls <= spec.maxCalls
    requires implicit.Some? ==> implicit.value < |m.sequences|
  {
    var declared := Next(m, Declare(e, spec));
    if implicit.None? then declared else Sequenced(declared, e, implicit.value)
  }

  ghost predicate RunsInTurn<T>(m: Mocks<T>, steps: seq<Step<T>>)
    requires Inv(m) && DeclaredInTurn(m)
    decreases |steps|
  {
    steps == [] ||
    (InTurn(m, steps[0]) &&
     (InTurnStepIsEnabled(m, steps[0]);
      hide *;
      RunsInTurn(AdvanceInTurn(m, steps[0]), steps[1..])))
  }

  ghost function AdvanceInTurn<T>(m: Mocks<T>, step: Step<T>): (m': Mocks<T>)
    requires Inv(m) && DeclaredInTurn(m) && InTurn(m, step)
    ensures Inv(m') && DeclaredInTurn(m') && Enabled(m, step) && m' == Advance(m, step)
  {
    InTurnStepIsEnabled(m, step);
    Advance(m, step)
  }

  /** Over every run in which expectations are ordered only while they are the newest, from NoMocks on or
      from any later state of such a run, no step is ever refused, everything required is older, the graph has
      no circle, and in each sequence every later expectation requires every earlier one. */
  lemma {:induction false} DisciplinedRuns<T>(m: Mocks<T>, steps: seq<Step<T>>)
    requires Inv(m) && DeclaredInTurn(m) && RunsInTurn(m, steps)
    ensures Runs(m, steps)
    ensures var f := Final(m, steps); DeclaredInTurn(f) && Acyclic(f.prereqs) && SequencesOrdered(f)
    decreases |steps|
  {
    hide InTurn, Advance, Next, Enabled, DeclaredInTurn, Shaped, SequencesOrdered, Acyclic, CalledInOrder, Closed;
    if steps != [] {
      var m' := AdvanceInTurn(m, steps[0]);
      DisciplinedRuns(m', steps[1..]);
    }
  }

  // ----- which orders of calls are accepted -----

  /** A call that matches only e goes to e within its limit. */
  ghost predicate Accepts<T>(m: Mocks<T>, e: T)
    requires Shaped(m) && e in m.born
  {
    Pick(m, [e]) == Some(e) && !Saturated(m, e)
  }

  /** The companion of OrderIsEnforced: nothing else keeps an expectation from taking a call. */
  lemma AcceptsExactlyWhen<T>(m: Mocks<T>, e: T)
    requires Shaped(m) && e in m.born
    ensures All(m.prereqs, e) <= m.born.Keys
    ensures Accepts(m, e) <==>
      && e !in m.retired && m.calls[e] < m.specs[e].maxCalls
      && forall p | p in All(m.prereqs, e) :: m.specs[p].minCalls <= m.calls[p] <= m.specs[p].maxCalls
  {
    hide All;
    AllIsClosed(m.prereqs, e);
    assert [e][..0] == [];
  }

  lemma AcceptedCallIsHandled<T>(m: Mocks<T>, e: T)
    requires Inv(m) && e in m.born && Accepts(m, e)
    ensures Enabled(m, Invoke([e])) && Next(m, Invoke([e])) == Handle(m, e) && Inv(Handle(m, e))
  {
    hide All, SequencesOrdered, CalledInOrder, Closed, Acyclic;
    HandleKeepsInv(m, e);
  }

  /** Called in the given order, each expectation takes its call within its limit. */
  ghost predicate AllAccepted<T>(m: Mocks<T>, calls: seq<T>)
    requires Inv(m) && forall e | e in calls :: e in m.born
    decreases |calls|
  {
    calls == [] ||
    (Accepts(m, calls[0]) &&
     (hide *;
      AcceptedCallIsHandled(m, calls[0]);
      HandleCounts(m, calls[0]);
      AllAccepted(Next(m, Invoke([calls[0]])), calls[1..])))
  }

  /** The call at i comes before its expectation has its highest number of calls, before every call that
      requires it to be over, and when each of its prerequisites has been called as often as it asks for. */
  ghost predicate InTime<T>(m: Mocks<T>, calls: seq<T>, i: nat)
    requires Shaped(m) && i < |calls| && forall e | e in calls :: e in m.born
  {
    AllIsClosed(m.prereqs, calls[i]);
    var e, earlier := calls[i], multiset(calls[..i]);
    && e !in m.retired && (forall j | 0 <= j < i :: e !in All(m.prereqs, calls[j]))
    && m.calls[e] + earlier[e] < m.specs[e].maxCalls
    && forall p | p in All(m.prereqs, e) :: m.specs[p].minCalls <= m.calls[p] + earlier[p] <= m.specs[p].maxCalls
  }

  lemma FirstInTime<T>(m: Mocks<T>, calls: seq<T>)
    requires Shaped(m) && calls != [] && forall e | e in calls :: e in m.born
    ensures InTime(m, calls, 0) <==> Accepts(m, calls[0])
  {
    hide All;
    AllIsClosed(m.prereqs, calls[0]);
    AcceptsExactlyWhen(m, calls[0]);
  }

  lemma FirstCounted<T>(calls: seq<T>, i: nat)
    requires i + 1 < |calls|
    ensures var earlier, later := multiset(calls[..i + 1]), multiset(calls[1..][..i]);
      forall x :: earlier[x] == later[x] + if x == calls[0] then 1 else 0
  {
    assert calls[..i + 1] == [calls[0]] + calls[1..][..i];
  }

  /** After an accepted call an expectation is retired when it was before, when the call required it to be
      over, or when it has its highest number of calls. */
  lemma RetiredByCall<T>(m: Mocks<T>, e: T, x: T)
    requires Shaped(m) && e in m.born && x in m.born && !Saturated(m, e)
    ensures x in m.retired || x in All(m.prereqs, e) ==> x in Handle(m, e).retired
    ensures x in Handle(m, e).retired ==>
      x in m.retired || x in All(m.prereqs, e) || Handle(m, e).calls[x] >= m.specs[x].maxCalls
  {
    hide All;
  }

  lemma LaterInTime<T>(m: Mocks<T>, calls: seq<T>, i: nat)
    requires Shaped(m) && i + 1 < |calls| && (forall e | e in calls :: e in m.born) && !Saturated(m, calls[0])
    ensures Shaped(Handle(m, calls[0])) && forall e | e in calls[1..] :: e in Handle(m, calls[0]).born
    ensures InTime(m, calls, i + 1) <==> InTime(Handle(m, calls[0]), calls[1..], i)
  {
    hide All, Handle, SatisfiedIn, Saturated;
    HandleCounts(m, calls[0]);
    AllIsClosed(m.prereqs, calls[i + 1]);
    FirstCounted(calls, i);
    RetiredByCall(m, calls[0], calls[i + 1]);
    assert forall j | 0 < j <= i :: calls[j] == calls[1..][j - 1];
    assert forall j | 0 <= j < i :: calls[j + 1] == calls[1..][j];
  }

  ghost predicate AllInTime<T>(m: Mocks<T>, calls: seq<T>)
    requires Shaped(m) && forall e | e in calls :: e in m.born
  {
    forall i | 0 <= i < |calls| :: InTime(m, calls, i)
  }

  lemma FirstThenLater<T>(m: Mocks<T>, calls: seq<T>)
    requires Shaped(m) && calls != [] && (forall e | e in calls :: e in m.born) && !Saturated(m, calls[0])
    ensures Shaped(Handle(m, calls[0])) && forall e | e in calls[1..] :: e in Handle(m, calls[0]).born
    ensures AllInTime(m, calls) <==> InTime(m, calls, 0) && AllInTime(Handle(m, calls[0]), calls[1..])
  {
    hide Handle, InTime, Shaped, Saturated;
    HandleCounts(m, calls[0]);
    forall i | 0 <= i < |calls| - 1 ensures InTime(m, calls, i + 1) <==> InTime(Handle(m, calls[0]), calls[1..], i) {
      LaterInTime(m, calls, i);
    }
    if InTime(m, calls, 0) && AllInTime(Handle(m, calls[0]), calls[1..]) {
      forall i | 0 < i < |calls| ensures InTime(m, calls, i) {
        LaterInTime(m, calls, i - 1);
      }
    }
  }

  /** From any state of a run, calls are accepted exactly when each comes in time. */
  lemma {:induction false} AcceptedExactlyInTime<T>(m: Mocks<T>, calls: seq<T>)
    requires Inv(m) && forall e | e in calls :: e in m.born
    ensures AllAccepted(m, calls) <==> AllInTime(m, calls)
    decreases |calls|
  {
    hide Handle, InTime, Shaped, AllInTime, Next, Acyclic, Closed, SequencesOrdered, CalledInOrder, Saturated;
    if calls == [] {
      NothingToDo(m);
    } else {
      FirstInTime(m, calls);
      if Accepts(m, calls[0]) {
        FirstThenLater(m, calls);
        AcceptedCallIsHandled(m, calls[0]);
        AcceptedExactlyInTime(Handle(m, calls[0]), calls[1..]);
      } else {
        LateFirst(m, calls);
      }
    }
  }

  lemma NothingToDo<T>(m: Mocks<T>)
    requires Shaped(m)
    ensures AllInTime(m, [])
  {
  }

  lemma LateFirst<T>(m: Mocks<T>, calls: seq<T>)
    requires Shaped(m) && calls != [] && (forall e | e in calls :: e in m.born) && !InTime(m, calls, 0)
    ensures !AllInTime(m, calls)
  {
    hide InTime;
  }

  /** No call comes before a call of one of its prerequisites. */
  ghost predicate RespectsOrder<T>(g: Prereqs<T>, calls: seq<T>)
    requires WellFormed(g) && forall e | e in calls :: e in g
  {
    forall i, j | 0 <= i < j < |calls| :: calls[j] !in All(g, calls[i])
  }

  /** No expectation is called too often, and what a called one requires is called often enough. */
  ghost predicate WithinLimits<T>(m: Mocks<T>, calls: seq<T>)
    requires Shaped(m) && forall e | e in calls :: e in m.born
  {
    forall e | e in calls ::
      && multiset(calls)[e] <= m.specs[e].maxCalls
      && forall p | p in All(m.prereqs, e) && p in m.specs :: m.specs[p].minCalls <= multiset(calls)[p]
  }

  lemma {:induction false} LastOccurrence<T>(calls: seq<T>, e: T) returns (i: nat)
    requires e in calls
    ensures i < |calls| && calls[i] == e && multiset(calls[..i])[e] + 1 == multiset(calls)[e]
  {
    var last := |calls| - 1;
    assert calls == calls[..last] + [calls[last]];
    if calls[last] == e {
      i := last;
    } else {
      i := LastOccurrence(calls[..last], e);
      assert calls[..last][..i] == calls[..i];
    }
  }

  lemma CountedBefore<T>(calls: seq<T>, i: nat, p: T)
    requires i <= |calls|
    ensures multiset(calls[..i])[p] <= multiset(calls)[p]
    ensures p !in calls[i..] ==> multiset(calls[..i])[p] == multiset(calls)[p]
    ensures p in calls[i..] ==> multiset(calls[..i])[p] < multiset(calls)[p]
  {
    assert calls == calls[..i] + calls[i..];
  }

  lemma LegalCallIsInTime<T>(m: Mocks<T>, calls: seq<T>, i: nat)
    requires Shaped(m) && Acyclic(m.prereqs) && m.retired == {} && forall e | e in m.born :: m.calls[e] == 0
    requires i < |calls| && (forall e | e in calls :: e in m.born)
    requires RespectsOrder(m.prereqs, calls) && WithinLimits(m, calls)
    ensures InTime(m, calls, i)
  {
    hide All;
    var e := calls[i];
    AllIsClosed(m.prereqs, e);
    CountedBefore(calls, i, e);
    forall p | p in All(m.prereqs, e)
      ensures m.specs[p].minCalls <= multiset(calls[..i])[p] <= m.specs[p].maxCalls
    {
      CountedBefore(calls, i, p);
      assert forall j | 0 <= j < |calls| - i :: calls[i..][j] == calls[i + j];
      if p in calls {
        assert multiset(calls)[p] <= m.specs[p].maxCalls;
      }
    }
  }

  /** From the start, calls are accepted exactly when none comes before a call of one of its transitive
      prerequisites, none is one too many, and everything required is called often enough. */
  lemma LegalOrdersAreAccepted<T>(m: Mocks<T>, calls: seq<T>)
    requires Inv(m) && m.retired == {} && forall e | e in m.born :: m.calls[e] == 0
    requires forall e | e in calls :: e in m.born
    ensures AllAccepted(m, calls) <==> RespectsOrder(m.prereqs, calls) && WithinLimits(m, calls)
  {
    hide All, AllAccepted, SequencesOrdered, CalledInOrder;
    AcceptedExactlyInTime(m, calls);
    if RespectsOrder(m.prereqs, calls) && WithinLimits(m, calls) {
      forall i | 0 <= i < |calls| ensures InTime(m, calls, i) {
        LegalCallIsInTime(m, calls, i);
      }
    } else if AllInTime(m, calls) {
      AcceptedCallsAreLegal(m, calls);
    }
  }

  lemma AcceptedCallsAreLegal<T>(m: Mocks<T>, calls: seq<T>)
    requires Shaped(m) && (forall e | e in m.born :: m.calls[e] == 0) && (forall e | e in calls :: e in m.born)
    requires AllInTime(m, calls)
    ensures RespectsOrder(m.prereqs, calls) && WithinLimits(m, calls)
  {
    hide All;
    forall i, j | 0 <= i < j < |calls| ensures calls[j] !in All(m.prereqs, calls[i]) {
      assert InTime(m, calls, j);
    }
    forall e | e in calls
      ensures multiset(calls)[e] <= m.specs[e].maxCalls
      ensures forall p | p in All(m.prereqs, e) && p in m.specs :: m.specs[p].minCalls <= multiset(calls)[p]
    {
      var i := LastOccurrence(calls, e);
      assert InTime(m, calls, i);
      forall p | p in All(m.prereqs, e) && p in m.specs ensures m.specs[p].minCalls <= multiset(calls)[p] {
        CountedBefore(calls, i, p);
      }
    }
  }

  /** The condition for a single new prerequisite, as when a sequence orders two expectations. */
  lemma NewEdgeKeepsAcyclicIff<T>(g: Prereqs<T>, e: T, l: T)
    requires WellFormed(g) && Acyclic(g) && e in g && l in g
    ensures WellFormed(g[e := g[e] + {l}])
    ensures Acyclic(g[e := g[e] + {l}]) <==> e != l && e !in All(g, l)
  {
    NewEdgesKeepAcyclicIff(g, e, {l});
    ClosureOfOne(g, l);
  }

  // ----- a sequence that returns to an expectation -----

  /** What adding e to a sequence does to the graph. */
  ghost function Added<T>(g: Prereqs<T>, history: seq<T>, e: T): Prereqs<T>
    requires e in g
  {
    g[e := g[e] + Predecessor(history, e)]
  }

  /** The source does not check for circles: adding an expectation, another one, and the first again to
      one sequence makes both require themselves, whatever they required before. */
  lemma ReturningClosesACircle<T>(g: Prereqs<T>, a: T, b: T)
    requires WellFormed(g) && a in g && b in g && a != b
    ensures var g' := Added(Added(Added(g, [], a), [a], b), [a, b], a);
      WellFormed(g') && a in All(g', a) && b in All(g', b)
  {
    var g' := Added(Added(Added(g, [], a), [a], b), [a, b], a);
    assert a in g'[b] && b in g'[a];
    AllIsClosed(g', a);
    AllIsClosed(g', b);
  }
}
