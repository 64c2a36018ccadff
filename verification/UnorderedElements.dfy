/** Matching the elements of a container against matchers in any order. */
module UnorderedElements {
  import opened BipartiteGraphs
  import opened GraphEnumeration
  import opened Matching

  datatype MatchRequire = Superset | Subset | ExactMatch {
    /** The Superset bit: every matcher needs an element. */
    predicate AllMatchers() { !Subset? }

    /** The Subset bit: every element needs a matcher. */
    predicate AllElements() { !Superset? }
  }

  /** A matching that covers the sides that must be covered. */
  ghost predicate Pairing(g: Graph, flags: MatchRequire, m: set<Edge>) {
    && IsMatching(g, m)
    && (flags.AllMatchers() ==> CoversRight(g, m))
    && (flags.AllElements() ==> CoversLeft(g, m))
  }

  ghost predicate PairingExists(g: Graph, flags: MatchRequire) {
    exists m :: Pairing(g, flags, m)
  }

  method FindMaxBipartiteMatching(matrix: MatchMatrix) returns (pairs: seq<Edge>)
    requires matrix.Valid()
    ensures IsMaximumMatching(matrix.ToGraph(), ToSet(pairs)) && |ToSet(pairs)| == |pairs|
  {
    var state := new MaxBipartiteMatchState(matrix);
    pairs := state.Compute();
  }

  /** True exactly when the required pairing exists. */
  method FindPairing(flags: MatchRequire, matrix: MatchMatrix) returns (ok: bool)
    requires matrix.Valid()
    ensures ok <==> PairingExists(matrix.ToGraph(), flags)
  {
    var matches := FindMaxBipartiteMatching(matrix);
    ghost var g := matrix.ToGraph();
    CoverageIsSize(g, ToSet(matches));
    forall m | Pairing(g, flags, m)
      ensures flags.AllMatchers() ==> |matches| >= g.rhs
      ensures flags.AllElements() ==> |matches| >= g.lhs
    {
      CoverageIsSize(g, m);
    }
    var maxFlow := |matches|;
    if flags.AllMatchers() && maxFlow < matrix.numMatchers {
      return false;
    }
    if flags.AllElements() && maxFlow < matrix.numElements {
      return false;
    }
    assert Pairing(g, flags, ToSet(matches));
    return true;
  }

  // ----- row by row scans -----

  /** The edges in the rows before `l`, and in row `l` before column `r`. */
  ghost function Scanned(g: Graph, l: nat, r: nat): set<Edge> {
    set e | e in g.edges && (e.0 < l || (e.0 == l && e.1 < r))
  }

  lemma ScanStep(g: Graph, l: nat, r: nat)
    ensures Scanned(g, l, r + 1) == Scanned(g, l, r) + if (l, r) in g.edges then {(l, r)} else {}
  {
  }

  lemma ScanStepEnds(g: Graph, l: nat, r: nat)
    ensures Lefts(Scanned(g, l, r + 1)) == Lefts(Scanned(g, l, r)) + if (l, r) in g.edges then {l} else {}
    ensures Rights(Scanned(g, l, r + 1)) == Rights(Scanned(g, l, r)) + if (l, r) in g.edges then {r} else {}
  {
  }

  lemma ScanRowEnd(g: Graph, l: nat)
    requires g.WellFormed()
    ensures Scanned(g, l, g.rhs) == Scanned(g, l + 1, 0)
    ensures Scanned(g, 0, 0) == {} && Scanned(g, g.lhs, 0) == g.edges
  {
  }

  /** flags[k] is set exactly for the members of s. */
  ghost predicate Marks(flags: seq<bool>, s: set<nat>) {
    forall k: nat | k < |flags| :: flags[k] <==> k in s
  }

  lemma NothingMarked(flags: seq<bool>, m: set<Edge>)
    requires forall k: nat | k < |flags| :: !flags[k]
    ensures m == {} ==> Marks(flags, Lefts(m)) && Marks(flags, Rights(m))
  {
  }

  ghost predicate AllMarked(flags: seq<bool>, n: nat) {
    forall k: nat | k < n && k < |flags| :: flags[k]
  }

  lemma OneMoreMarked(flags: seq<bool>, n: nat)
    ensures AllMarked(flags, 0)
    ensures n < |flags| ==> (AllMarked(flags, n + 1) <==> AllMarked(flags, n) && flags[n])
  {
  }

  lemma MarksCover(flags: seq<bool>, s: set<nat>)
    requires Marks(flags, s)
    ensures AllMarked(flags, |flags|) <==> Range(|flags|) <= s
  {
  }

  lemma MarkStep(flags: seq<bool>, s: set<nat>, k: nat, b: bool)
    requires Marks(flags, s) && k < |flags|
    ensures Marks(flags[k := flags[k] || b], s + if b then {k} else {})
  {
  }

  /** The quick filter: true exactly when no node that must be covered is isolated. */
  method VerifyMatchMatrix(flags: MatchRequire, matrix: MatchMatrix) returns (ok: bool)
    requires matrix.Valid()
    ensures var g := matrix.ToGraph();
      ok <==> (flags.AllMatchers() ==> CoversRight(g, g.edges)) && (flags.AllElements() ==> CoversLeft(g, g.edges))
  {
    hide Scanned, Marks, Lefts, Rights, AllMarked;
    ghost var g := matrix.ToGraph();
    var elementMatched := new bool[matrix.numElements](_ => false);
    var matcherMatched := new bool[matrix.numMatchers](_ => false);
    NothingMarked(elementMatched[..], Scanned(g, 0, 0));
    NothingMarked(matcherMatched[..], Scanned(g, 0, 0));
    ScanRowEnd(g, 0);
    for ilhs := 0 to matrix.numElements
      invariant Marks(elementMatched[..], Lefts(Scanned(g, ilhs, 0)))
      invariant Marks(matcherMatched[..], Rights(Scanned(g, ilhs, 0)))
    {
      for irhs := 0 to matrix.numMatchers
        invariant Marks(elementMatched[..], Lefts(Scanned(g, ilhs, irhs)))
        invariant Marks(matcherMatched[..], Rights(Scanned(g, ilhs, irhs)))
      {
        var matched := matrix.HasEdge(ilhs, irhs);
        ghost var elements0, matchers0 := elementMatched[..], matcherMatched[..];
        elementMatched[ilhs] := elementMatched[ilhs] || matched;
        matcherMatched[irhs] := matcherMatched[irhs] || matched;
        ScanStepEnds(g, ilhs, irhs);
        MarkStep(elements0, Lefts(Scanned(g, ilhs, irhs)), ilhs, matched);
        MarkStep(matchers0, Rights(Scanned(g, ilhs, irhs)), irhs, matched);
        assert elementMatched[..] == elements0[ilhs := elements0[ilhs] || matched];
        assert matcherMatched[..] == matchers0[irhs := matchers0[irhs] || matched];
      }
      ScanRowEnd(g, ilhs);
    }
    ghost var elementMarks, matcherMarks := elementMatched[..], matcherMatched[..];
    MarksCover(elementMarks, Lefts(g.edges));
    MarksCover(matcherMarks, Rights(g.edges));
    OneMoreMarked(matcherMarks, 0);
    OneMoreMarked(elementMarks, 0);
    ok := true;
    if flags.AllMatchers() {
      for mi := 0 to matcherMatched.Length
        invariant matcherMatched[..] == matcherMarks && elementMatched[..] == elementMarks
        invariant ok <==> AllMarked(matcherMarks, mi)
      {
        OneMoreMarked(matcherMarks, mi);
        if matcherMatched[mi] { continue; }
        ok := false;
      }
    }
    ghost var okSoFar := ok;
    if flags.AllElements() {
      for ei := 0 to elementMatched.Length
        invariant elementMatched[..] == elementMarks
        invariant ok <==> okSoFar && AllMarked(elementMarks, ei)
      {
        OneMoreMarked(elementMarks, ei);
        if elementMatched[ei] { continue; }
        ok := false;
      }
    }
  }

  /** The quick filter never rejects a graph that has the required pairing. */
  lemma QuickFilterIsSound(g: Graph, flags: MatchRequire)
    requires PairingExists(g, flags)
    ensures flags.AllMatchers() ==> CoversRight(g, g.edges)
    ensures flags.AllElements() ==> CoversLeft(g, g.edges)
  {
  }

  // ----- whole containers -----

  /** p sends each of n positions to a position of its own below m. */
  ghost predicate Injective(p: seq<nat>, n: nat, m: nat) {
    && |p| == n
    && (forall i | 0 <= i < n :: p[i] < m)
    && (forall i, j | 0 <= i < j < n :: p[i] != p[j])
  }

  /** p gives each element a matcher of its own that it satisfies. */
  ghost predicate ElementsAssigned<E, M>(elements: seq<E>, matchers: seq<M>, matches: (E, M) -> bool, p: seq<nat>) {
    && Injective(p, |elements|, |matchers|)
    && forall i | 0 <= i < |elements| :: matches(elements[i], matchers[p[i]])
  }

  /** p gives each matcher an element of its own that satisfies it. */
  ghost predicate MatchersAssigned<E, M>(elements: seq<E>, matchers: seq<M>, matches: (E, M) -> bool, p: seq<nat>) {
    && Injective(p, |matchers|, |elements|)
    && forall j | 0 <= j < |matchers| :: matches(elements[p[j]], matchers[j])
  }

  /** What the caller is promised, without mention of graphs. */
  ghost predicate MatchesInAnyOrder<E, M>(elements: seq<E>, matchers: seq<M>, matches: (E, M) -> bool,
      flags: MatchRequire)
  {
    match flags
    case Superset => exists p :: MatchersAssigned(elements, matchers, matches, p)
    case Subset => exists p :: ElementsAssigned(elements, matchers, matches, p)
    case ExactMatch => |elements| == |matchers| && exists p :: ElementsAssigned(elements, matchers, matches, p)
  }

  ghost function MatchGraph<E, M>(elements: seq<E>, matchers: seq<M>, matches: (E, M) -> bool): (g: Graph)
    ensures g.WellFormed()
  {
    Graph(|elements|, |matchers|,
          set l: nat, r: nat | l in Range(|elements|) && r in Range(|matchers|) &&
            matches(elements[l], matchers[r]) :: (l, r))
  }

  ghost predicate EdgeAssigned(g: Graph, p: seq<nat>) {
    Injective(p, g.lhs, g.rhs) && forall i: nat | i < g.lhs :: (i, p[i]) in g.edges
  }

  ghost function PartnerOf(m: set<Edge>, l: nat): (r: nat)
    requires l in Lefts(m)
    ensures (l, r) in m
  {
    var e :| e in m && e.0 == l;
    assert (e.0, e.1) == e;
    e.1
  }

  lemma CoverGivesAssignment(g: Graph, m: set<Edge>) returns (p: seq<nat>)
    requires g.WellFormed() && IsMatching(g, m) && CoversLeft(g, m)
    ensures EdgeAssigned(g, p)
  {
    p := seq(g.lhs, i requires i in Lefts(m) => PartnerOf(m, i));
    assert forall i: nat | i < g.lhs :: (i, p[i]) in m;
  }

  lemma AssignmentGivesCover(g: Graph, p: seq<nat>) returns (m: set<Edge>)
    requires g.WellFormed() && EdgeAssigned(g, p)
    ensures IsMatching(g, m) && CoversLeft(g, m)
  {
    m := set i | i in Range(g.lhs) :: (i, p[i]);
    forall i | i in Range(g.lhs) ensures i in Lefts(m) {
      assert (i, p[i]) in m;
    }
  }

  lemma CoverIsAssignment(g: Graph)
    requires g.WellFormed()
    ensures (exists m :: IsMatching(g, m) && CoversLeft(g, m)) <==> (exists p :: EdgeAssigned(g, p))
  {
    if m :| IsMatching(g, m) && CoversLeft(g, m) {
      var p := CoverGivesAssignment(g, m);
    }
    if p :| EdgeAssigned(g, p) {
      var m := AssignmentGivesCover(g, p);
    }
  }

  ghost function FlipEdges(m: set<Edge>): set<Edge> {
    set e | e in m :: (e.1, e.0)
  }

  ghost function Flip(g: Graph): (f: Graph) {
    Graph(g.rhs, g.lhs, FlipEdges(g.edges))
  }

  lemma FlippedTwice(m: set<Edge>)
    ensures FlipEdges(FlipEdges(m)) == m
  {
  }

  lemma FlippedMatching(g: Graph, m: set<Edge>)
    requires IsMatching(g, m)
    ensures IsMatching(Flip(g), FlipEdges(m)) && Lefts(FlipEdges(m)) == Rights(m)
  {
  }

  lemma RightCoverIsLeftCoverFlipped(g: Graph)
    requires g.WellFormed()
    ensures Flip(g).WellFormed()
    ensures (exists m :: IsMatching(g, m) && CoversRight(g, m)) <==>
      (exists m :: IsMatching(Flip(g), m) && CoversLeft(Flip(g), m))
  {
    FlippedTwice(g.edges);
    if m :| IsMatching(g, m) && CoversRight(g, m) {
      FlippedMatching(g, m);
      assert CoversLeft(Flip(g), FlipEdges(m));
    }
    if m :| IsMatching(Flip(g), m) && CoversLeft(Flip(g), m) {
      FlippedTwice(m);
      FlippedMatching(Flip(g), m);
      assert Flip(Flip(g)) == g;
      FlippedMatching(g, FlipEdges(m));
      assert CoversRight(g, FlipEdges(m));
    }
  }

  lemma ElementsSide<E, M>(elements: seq<E>, matchers: seq<M>, matches: (E, M) -> bool)
    ensures var g := MatchGraph(elements, matchers, matches);
      (exists m :: IsMatching(g, m) && CoversLeft(g, m)) <==>
        (exists p :: ElementsAssigned(elements, matchers, matches, p))
  {
    var g := MatchGraph(elements, matchers, matches);
    CoverIsAssignment(g);
    forall p ensures EdgeAssigned(g, p) <==> ElementsAssigned(elements, matchers, matches, p) {
      if ElementsAssigned(elements, matchers, matches, p) {
        assert forall i: nat | i < g.lhs :: (i, p[i]) in g.edges;
      }
      if EdgeAssigned(g, p) {
        forall i: nat | i < g.lhs ensures matches(elements[i], matchers[p[i]]) {
          assert (i, p[i]) in g.edges;
        }
      }
    }
  }

  lemma MatchersSide<E, M>(elements: seq<E>, matchers: seq<M>, matches: (E, M) -> bool)
    ensures var g := MatchGraph(elements, matchers, matches);
      (exists m :: IsMatching(g, m) && CoversRight(g, m)) <==>
        (exists p :: MatchersAssigned(elements, matchers, matches, p))
  {
    var g := MatchGraph(elements, matchers, matches);
    RightCoverIsLeftCoverFlipped(g);
    CoverIsAssignment(Flip(g));
    forall p ensures EdgeAssigned(Flip(g), p) <==> MatchersAssigned(elements, matchers, matches, p) {
      FlippedAssignment(elements, matchers, matches, p);
    }
  }

  lemma FlippedAssignment<E, M>(elements: seq<E>, matchers: seq<M>, matches: (E, M) -> bool, p: seq<nat>)
    ensures EdgeAssigned(Flip(MatchGraph(elements, matchers, matches)), p) <==>
      MatchersAssigned(elements, matchers, matches, p)
  {
  }

  /** Pairings of the match graph are exactly the promised assignments. */
  lemma PairingIsAssignment<E, M>(elements: seq<E>, matchers: seq<M>, matches: (E, M) -> bool, flags: MatchRequire)
    requires flags.ExactMatch? ==> |elements| == |matchers|
    ensures PairingExists(MatchGraph(elements, matchers, matches), flags) <==>
      MatchesInAnyOrder(elements, matchers, matches, flags)
  {
    var g := MatchGraph(elements, matchers, matches);
    if flags.Superset? {
      MatchersSide(elements, matchers, matches);
      assert forall m :: Pairing(g, flags, m) <==> IsMatching(g, m) && CoversRight(g, m);
    } else {
      ElementsSide(elements, matchers, matches);
      forall m ensures Pairing(g, flags, m) <==> IsMatching(g, m) && CoversLeft(g, m) {
        if IsMatching(g, m) {
          CoverageIsSize(g, m);
        }
      }
    }
  }

  /** The answers of all matchers, row by row, up to column r of row l. */
  function Answers<E, M>(elements: seq<E>, matchers: seq<M>, matches: (E, M) -> bool, l: nat, r: nat): (a: seq<bool>)
    requires l <= |elements| && r <= |matchers| && (l == |elements| ==> r == 0)
    ensures |a| == Cell(|matchers|, l, r)
    decreases l, r
  {
    if r > 0 then Answers(elements, matchers, matches, l, r - 1) + [matches(elements[l], matchers[r - 1])]
    else if l > 0 then Answers(elements, matchers, matches, l - 1, |matchers|)
    else []
  }

  lemma {:induction false} AnswerAt<E, M>(elements: seq<E>, matchers: seq<M>, matches: (E, M) -> bool,
      l: nat, r: nat, l': nat, r': nat)
    requires l <= |elements| && r <= |matchers| && (l == |elements| ==> r == 0)
    requires r' < |matchers| && (l' < l || (l' == l && r' < r))
    ensures Cell(|matchers|, l', r') < Cell(|matchers|, l, r)
    ensures Answers(elements, matchers, matches, l, r)[Cell(|matchers|, l', r')] == matches(elements[l'], matchers[r'])
    decreases l, r
  {
    hide Cell, Answers;
    LastAnswer(elements, matchers, matches, l, r);
    if r == 0 {
      NextCell(|matchers|, l - 1, 0);
      AnswerAt(elements, matchers, matches, l - 1, |matchers|, l', r');
    } else {
      NextCell(|matchers|, l, r - 1);
      if l' < l || r' < r - 1 {
        AnswerAt(elements, matchers, matches, l, r - 1, l', r');
      }
    }
  }

  lemma LastAnswer<E, M>(elements: seq<E>, matchers: seq<M>, matches: (E, M) -> bool, l: nat, r: nat)
    requires l <= |elements| && r <= |matchers| && (l == |elements| ==> r == 0)
    ensures Answers(elements, matchers, matches, l, r) ==
      if r > 0 then Answers(elements, matchers, matches, l, r - 1) + [matches(elements[l], matchers[r - 1])]
      else if l > 0 then Answers(elements, matchers, matches, l - 1, |matchers|)
      else []
  {
    hide Cell;
  }

  /** Asks every matcher about every element, row by row. */
  method CollectAnswers<E, M>(elements: seq<E>, matchers: seq<M>, matches: (E, M) -> bool) returns (didMatch: seq<bool>)
    ensures didMatch == Answers(elements, matchers, matches, |elements|, 0)
  {
    didMatch := [];
    for l := 0 to |elements|
      invariant didMatch == Answers(elements, matchers, matches, l, 0)
    {
      for r := 0 to |matchers|
        invariant didMatch == Answers(elements, matchers, matches, l, r)
      {
        didMatch := didMatch + [matches(elements[l], matchers[r])];
      }
    }
  }

  lemma StepSetsEdge<E, M>(elements: seq<E>, matchers: seq<M>, matches: (E, M) -> bool, l: nat, r: nat)
    requires l < |elements| && r < |matchers|
    ensures var g := MatchGraph(elements, matchers, matches);
      Scanned(g, l, r + 1) == Scanned(g, l, r) - {(l, r)} + if matches(elements[l], matchers[r]) then {(l, r)} else {}
  {
    ScanStep(MatchGraph(elements, matchers, matches), l, r);
  }

  lemma MatchGraphSides<E, M>(elements: seq<E>, matchers: seq<M>, matches: (E, M) -> bool)
    ensures var g := MatchGraph(elements, matchers, matches); g.lhs == |elements| && g.rhs == |matchers|
  {
  }

  lemma NextCell(rhs: nat, l: nat, r: nat)
    ensures Cell(rhs, 0, 0) == 0 && Cell(rhs, l, r + 1) == Cell(rhs, l, r) + 1
    ensures Cell(rhs, l, rhs) == Cell(rhs, l + 1, 0)
  {
  }

  /** Turns the answers into the connectivity matrix. */
  method AnalyzeElements<E, M>(elements: seq<E>, matchers: seq<M>, matches: (E, M) -> bool)
    returns (matrix: MatchMatrix)
    ensures matrix.Valid() && fresh(matrix) && fresh(matrix.matched)
    ensures matrix.ToGraph() == MatchGraph(elements, matchers, matches)
  {
    hide Answers, Scanned, MatchGraph, GraphOf, Cell;
    var didMatch := CollectAnswers(elements, matchers, matches);
    NextCell(|matchers|, 0, 0);
    matrix := new MatchMatrix(|elements|, |matchers|);
    ghost var g := MatchGraph(elements, matchers, matches);
    MatchGraphSides(elements, matchers, matches);
    ScanRowEnd(g, 0);
    var next := 0;
    for l := 0 to |elements|
      invariant next == Cell(|matchers|, l, 0) && fresh(matrix.matched)
      invariant matrix.ToGraph() == g.(edges := Scanned(g, l, 0))
    {
      for r := 0 to |matchers|
        invariant next == Cell(|matchers|, l, r) && fresh(matrix.matched)
        invariant matrix.ToGraph() == g.(edges := Scanned(g, l, r))
      {
        AnswerAt(elements, matchers, matches, |elements|, 0, l, r);
        NextCell(|matchers|, l, r);
        StepSetsEdge(elements, matchers, matches, l, r);
        matrix.SetEdge(l, r, didMatch[next]);
        next := next + 1;
      }
      NextCell(|matchers|, l, 0);
      ScanRowEnd(g, l);
    }
    ScanRowEnd(g, 0);
  }

  /** The quick filter and the maximum matching together decide exactly the promised relation. */
  method MatchAndExplain<E, M>(flags: MatchRequire, elements: seq<E>, matchers: seq<M>, matches: (E, M) -> bool)
    returns (ok: bool)
    ensures ok <==> MatchesInAnyOrder(elements, matchers, matches, flags)
  {
    var matrix := AnalyzeElements(elements, matchers, matches);
    ghost var g := MatchGraph(elements, matchers, matches);
    if matrix.numElements == 0 && matrix.numMatchers == 0 {
      assert ElementsAssigned(elements, matchers, matches, []) && MatchersAssigned(elements, matchers, matches, []);
      return true;
    }
    if flags.ExactMatch? && matrix.numElements != matrix.numMatchers {
      return false;
    }
    PairingIsAssignment(elements, matchers, matches, flags);
    ok := VerifyMatchMatrix(flags, matrix);
    if ok {
      ok := FindPairing(flags, matrix);
    } else if PairingExists(g, flags) {
      QuickFilterIsSound(g, flags);
    }
  }
}
