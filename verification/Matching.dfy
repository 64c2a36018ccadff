/** Maximum bipartite matching by depth-first augmentation. */
module Matching {
  import opened BipartiteGraphs
  import opened GraphEnumeration
  import opened Powers

  const UNUSED := -1

  // ----- residual flow, as values -----

  /** Every matched left node is joined by an edge to a right node that points back at it. */
  ghost predicate LeftsRefer(g: Graph, left: seq<int>, right: seq<int>) {
    && |left| == g.lhs && |right| == g.rhs
    && forall l | 0 <= l < |left| && left[l] != UNUSED ::
         0 <= left[l] < |right| && right[left[l]] == l && (l, left[l]) in g.edges
  }

  /** Every matched right node other than `except` is pointed back at. */
  ghost predicate RightsRefer(left: seq<int>, right: seq<int>, except: int) {
    forall r | 0 <= r < |right| && r != except && right[r] != UNUSED ::
      0 <= right[r] < |left| && left[right[r]] == r
  }

  /** The two vectors are mutually referent: they describe one matching. */
  ghost predicate MutuallyReferent(g: Graph, left: seq<int>, right: seq<int>) {
    LeftsRefer(g, left, right) && RightsRefer(left, right, UNUSED)
  }

  ghost predicate NeighboursIn(g: Graph, l: int, rs: set<int>) {
    forall r | 0 <= r < g.rhs && 0 <= l && (l, r) in g.edges :: r in rs
  }

  /** Right nodes from which no augmenting path leads to the sink: all are matched and
      the neighbours of their partners are dead too. */
  ghost predicate Dead(g: Graph, right: seq<int>, dead: set<int>) {
    forall r | r in dead ::
      0 <= r < |right| && right[r] != UNUSED && NeighboursIn(g, right[r], dead)
  }

  ghost function Seen(seen: seq<bool>): set<int> {
    set r | 0 <= r < |seen| && seen[r]
  }

  ghost function Unseen(seen: seq<bool>): set<int> {
    set r | 0 <= r < |seen| && !seen[r]
  }

  lemma FewerUnseen(seen0: seq<bool>, seen1: seq<bool>, r: nat)
    requires |seen0| == |seen1| && Seen(seen0) <= Seen(seen1)
    requires r < |seen1| && !seen1[r]
    ensures Unseen(seen1[r := true]) < Unseen(seen0)
  {
    forall q | q in Unseen(seen1[r := true]) ensures q in Unseen(seen0) {
      assert q !in Seen(seen1);
    }
    assert r !in Seen(seen1) && r in Unseen(seen0) && r !in Unseen(seen1[r := true]);
  }

  /** Every node seen now but not before is matched to a left node with all its neighbours seen. */
  ghost predicate Exhausted(g: Graph, right: seq<int>, before: seq<bool>, now: seq<bool>) {
    && |right| == |before| == |now|
    && forall r | 0 <= r < |now| && now[r] && !before[r] ::
         right[r] != UNUSED && NeighboursIn(g, right[r], Seen(now))
  }

  /** `right'` has exactly one more matched node than `right`. */
  ghost predicate NewlyMatched(right: seq<int>, right': seq<int>, r: int) {
    && |right'| == |right|
    && 0 <= r < |right| && right[r] == UNUSED && right'[r] != UNUSED
    && forall q | 0 <= q < |right| && q != r :: right'[q] == UNUSED <==> right[q] == UNUSED
  }

  /** The state change made by one successful augmentation from `ilhs`. */
  ghost predicate Augmented(g: Graph, left: seq<int>, right: seq<int>, seen: set<int>, dead: set<int>,
                            left': seq<int>, right': seq<int>, ilhs: nat)
  {
    && |left| == |left'| && |right| == |right'|
    && ilhs < |left|
    && LeftsRefer(g, left', right')
    && RightsRefer(left', right', left[ilhs])
    && left'[ilhs] != UNUSED && left'[ilhs] != left[ilhs]
    && (forall l | 0 <= l < |left| && l != ilhs :: left'[l] == UNUSED <==> left[l] == UNUSED)
    && (forall l | 0 <= l < |left| && l != ilhs && (left[l] == UNUSED || left[l] in seen) :: left'[l] == left[l])
    && (forall r | 0 <= r < |right| && (r in seen || r in dead) :: right'[r] == right[r])
    && exists r :: NewlyMatched(right, right', r)
  }

  /** Ending a path at an unmatched right node. */
  lemma AugmentAtSink(g: Graph, left: seq<int>, right: seq<int>, seen: set<int>, dead: set<int>, ilhs: nat, irhs: nat)
    requires MutuallyReferent(g, left, right) && Dead(g, right, dead)
    requires ilhs < |left| && irhs < |right| && (ilhs, irhs) in g.edges
    requires irhs !in seen && right[irhs] == UNUSED
    ensures Augmented(g, left, right, seen, dead, left[ilhs := irhs], right[irhs := ilhs], ilhs)
  {
    assert NewlyMatched(right, right[irhs := ilhs], irhs);
  }

  /** Extending a path that continues from the partner of `irhs`: the one broken reference moves
      from `irhs` to the previous partner of `ilhs`. */
  lemma AugmentThroughPartner(g: Graph, left: seq<int>, right: seq<int>, seen: set<int>, innerSeen: set<int>,
                              dead: set<int>, left': seq<int>, right': seq<int>, ilhs: nat, irhs: nat)
    requires MutuallyReferent(g, left, right) && Dead(g, right, dead)
    requires ilhs < |left| && irhs < |right| && (ilhs, irhs) in g.edges
    requires left[ilhs] != UNUSED ==> left[ilhs] in seen
    requires irhs !in seen && irhs !in dead && right[irhs] != UNUSED
    requires Augmented(g, left, right, innerSeen, dead, left', right', right[irhs])
    requires seen + {irhs} <= innerSeen
    ensures Augmented(g, left, right, seen, dead, left'[ilhs := irhs], right'[irhs := ilhs], ilhs)
  {
    hide Dead;
    var r :| NewlyMatched(right, right', r);
    assert NewlyMatched(right, right'[irhs := ilhs], r);
  }

  /** A failed search below the partner of `irhs` leaves `irhs` exhausted too. */
  lemma ExhaustedThroughPartner(g: Graph, right: seq<int>, seen0: seq<bool>, seen1: seq<bool>, irhs: nat,
      seen2: seq<bool>)
    requires Exhausted(g, right, seen0, seen1)
    requires irhs < |right| && right[irhs] != UNUSED
    requires Exhausted(g, right, seen1[irhs := true], seen2)
    requires Seen(seen1) + {irhs} <= Seen(seen2)
    requires NeighboursIn(g, right[irhs], Seen(seen2))
    ensures Exhausted(g, right, seen0, seen2)
  {
  }

  // ----- the bit matrix -----

  class MatchMatrix {
    const numElements: nat
    const numMatchers: nat
    const matched: array<bool>

    ghost predicate Valid() {
      matched.Length == numElements * numMatchers
    }

    /** The graph that the bits stand for. */
    ghost function ToGraph(): (g: Graph)
      requires Valid()
      reads matched
      ensures g.WellFormed() && g.lhs == numElements && g.rhs == numMatchers
    {
      GraphOf(numElements, numMatchers, matched[..])
    }

    constructor (elements: nat, matchers: nat)
      ensures Valid() && numElements == elements && numMatchers == matchers
      ensures fresh(matched) && matched[..] == Visited(elements * matchers, 0)
      ensures ToGraph() == Graph(elements, matchers, {})
    {
      numElements, numMatchers := elements, matchers;
      matched := new bool[elements * matchers](_ => false);
      new;
      assert ToGraph().edges == {};
    }

    function SpaceIndex(ilhs: nat, irhs: nat): (k: nat)
      requires ilhs < numElements && irhs < numMatchers
      ensures k < numElements * numMatchers
    {
      CellInRange(numElements, numMatchers, ilhs, irhs);
      Cell(numMatchers, ilhs, irhs)
    }

    predicate HasEdge(ilhs: nat, irhs: nat)
      requires Valid() && ilhs < numElements && irhs < numMatchers
      reads matched
      ensures HasEdge(ilhs, irhs) <==> (ilhs, irhs) in ToGraph().edges
    {
      matched[SpaceIndex(ilhs, irhs)]
    }

    method SetEdge(ilhs: nat, irhs: nat, b: bool)
      requires Valid() && ilhs < numElements && irhs < numMatchers
      modifies matched
      ensures matched[..] == old(matched[..])[SpaceIndex(ilhs, irhs) := b]
      ensures ToGraph() == old(ToGraph()).(edges := old(ToGraph().edges) - {(ilhs, irhs)} +
        if b then {(ilhs, irhs)} else {})
    {
      ghost var g := ToGraph();
      matched[SpaceIndex(ilhs, irhs)] := b;
      ghost var edges := g.edges - {(ilhs, irhs)} + if b then {(ilhs, irhs)} else {};
      forall l: nat, r: nat ensures (l, r) in ToGraph().edges <==> (l, r) in edges {
        if l < numElements && r < numMatchers {
          CellInRange(numElements, numMatchers, l, r);
          CellsDistinct(numMatchers, l, r);
          CellsDistinct(numMatchers, ilhs, irhs);
        }
      }
      forall e: Edge ensures e in ToGraph().edges <==> e in edges {
        assert (e.0, e.1) == e;
      }
      assert ToGraph().edges == edges;
    }

    /** Adds one to the matrix read as a binary number; false exactly when that wraps around. */
    method NextGraph() returns (more: bool)
      requires Valid()
      modifies matched
      ensures more <==> Number(old(matched[..])) + 1 < Pow2(matched.Length)
      ensures matched[..] == Increment(old(matched[..]))
      ensures Number(matched[..]) == if more then Number(old(matched[..])) + 1 else 0
    {
      ghost var bits := matched[..];
      IncrementAddsOne(bits);
      for ilhs := 0 to numElements
        invariant Cell(numMatchers, ilhs, 0) <= matched.Length
        invariant Flipped(bits, matched[..], Cell(numMatchers, ilhs, 0))
      {
        for irhs := 0 to numMatchers
          invariant Cell(numMatchers, ilhs, irhs) <= matched.Length
          invariant Flipped(bits, matched[..], Cell(numMatchers, ilhs, irhs))
        {
          var k := SpaceIndex(ilhs, irhs);
          if !matched[k] {
            matched[k] := true;
            IncrementAt(bits, k);
            return true;
          }
          matched[k] := false;
        }
        assert Cell(numMatchers, ilhs + 1, 0) == Cell(numMatchers, ilhs, numMatchers);
      }
      IncrementAt(bits, |bits|);
      return false;
    }
  }

  /** The first k bits were all true and are now cleared; the others are untouched. */
  ghost predicate Flipped(before: seq<bool>, now: seq<bool>, k: nat) {
    && |now| == |before|
    && forall i | 0 <= i < |now| :: if i < k then before[i] && !now[i] else now[i] == before[i]
  }

  // ----- augmentation -----

  class MaxBipartiteMatchState {
    const graph: MatchMatrix
    const left: array<int>
    const right: array<int>

    ghost predicate Valid() {
      && graph.Valid() && left != right
      && left.Length == graph.numElements && right.Length == graph.numMatchers
    }

    constructor (graph: MatchMatrix)
      requires graph.Valid()
      ensures Valid() && this.graph == graph && fresh(left) && fresh(right)
      ensures forall l | 0 <= l < left.Length :: left[l] == UNUSED
      ensures forall r | 0 <= r < right.Length :: right[r] == UNUSED
    {
      this.graph := graph;
      left := new int[graph.numElements](_ => UNUSED);
      right := new int[graph.numMatchers](_ => UNUSED);
    }

    /** Searches for an augmenting path from `ilhs`. On failure nothing changes and every node
        newly seen is matched to a left node all of whose neighbours have been seen. */
    method TryAugment(ilhs: nat, seen: array<bool>, ghost g: Graph, ghost dead: set<int>) returns (found: bool)
      requires Valid() && g == graph.ToGraph() && seen != graph.matched
      requires ilhs < left.Length && seen.Length == right.Length
      requires MutuallyReferent(g, left[..], right[..])
      requires left[ilhs] != UNUSED ==> left[ilhs] in Seen(seen[..])
      requires Dead(g, right[..], dead)
      modifies left, right, seen
      ensures Seen(old(seen[..])) <= Seen(seen[..])
      ensures NeighboursIn(g, ilhs, dead) ==> !found
      ensures found ==>
        Augmented(g, old(left[..]), old(right[..]), Seen(old(seen[..])), dead, left[..], right[..], ilhs)
      ensures !found ==> left[..] == old(left[..]) && right[..] == old(right[..])
      ensures !found ==> NeighboursIn(g, ilhs, Seen(seen[..]))
      ensures !found ==> Exhausted(g, right[..], old(seen[..]), seen[..])
      decreases Unseen(seen[..])
    {
      ghost var left0, right0, seen0 := left[..], right[..], seen[..];
      for irhs := 0 to graph.numMatchers
        invariant left[..] == left0 && right[..] == right0
        invariant Seen(seen0) <= Seen(seen[..])
        invariant forall r | 0 <= r < irhs && (ilhs, r) in g.edges :: r in Seen(seen[..])
        invariant Exhausted(g, right0, seen0, seen[..])
      {
        if seen[irhs] { continue; }
        if !graph.HasEdge(ilhs, irhs) { continue; }
        ghost var seen1 := seen[..];
        seen[irhs] := true;
        ghost var seen2 := seen[..];
        assert seen2 == seen1[irhs := true];
        assert Seen(seen2) == Seen(seen1) + {irhs};
        var reached := right[irhs] == UNUSED;
        if reached {
          AugmentAtSink(g, left0, right0, Seen(seen0), dead, ilhs, irhs);
        } else {
          FewerUnseen(seen0, seen1, irhs);
          reached := TryAugment(right[irhs], seen, g, dead);
          if reached {
            AugmentThroughPartner(g, left0, right0, Seen(seen0), Seen(seen2), dead, left[..], right[..], ilhs, irhs);
          } else {
            ExhaustedThroughPartner(g, right0, seen0, seen1, irhs, seen[..]);
          }
        }
        if reached {
          ghost var left1, right1 := left[..], right[..];
          left[ilhs] := irhs;
          right[irhs] := ilhs;
          assert left[..] == left1[ilhs := irhs] && right[..] == right1[irhs := ilhs];
          return true;
        }
      }
      return false;
    }

    /** Tries every left node once and lists the matched pairs. */
    method Compute() returns (result: seq<Edge>)
      requires Valid()
      requires forall l | 0 <= l < left.Length :: left[l] == UNUSED
      requires forall r | 0 <= r < right.Length :: right[r] == UNUSED
      modifies left, right
      ensures IsMaximumMatching(graph.ToGraph(), ToSet(result))
      ensures |ToSet(result)| == |result|
    {
      hide Lists, MutuallyReferent, Dead, SettledBelow, NeighboursIn, Augmented, Exhausted, UnusedFrom,
        IsMaximumMatching;
      ghost var g := graph.ToGraph();
      ghost var dead: set<int> := {};
      NothingMatched(g, left[..], right[..]);
      for ilhs := 0 to graph.numElements
        invariant MutuallyReferent(g, left[..], right[..])
        invariant Dead(g, right[..], dead)
        invariant UnusedFrom(left[..], ilhs) && SettledBelow(g, left[..], dead, ilhs)
      {
        NextUnused(left[..], ilhs);
        assert left[ilhs] == UNUSED;  // the check made at this point never fires
        var seen := new bool[graph.numMatchers](_ => false);
        ghost var left0, right0, seen0 := left[..], right[..], seen[..];
        assert Seen(seen0) == {};
        var found := TryAugment(ilhs, seen, g, dead);
        if found {
          SettledAfterAugmenting(g, left0, right0, {}, dead, left[..], right[..], ilhs);
        } else {
          SettledAfterFailure(g, left0, right0, dead, seen0, seen[..], ilhs);
          dead := dead + Seen(seen[..]);
        }
      }
      ghost var finalLeft, finalRight := left[..], right[..];
      result := [];
      ListsOneMore(ToSet(result), finalLeft, 0);
      for ilhs := 0 to left.Length
        invariant left[..] == finalLeft && right[..] == finalRight
        invariant forall e | e in result :: e.0 < ilhs && left[e.0] == e.1
        invariant Lists(ToSet(result), finalLeft, ilhs)
        invariant |ToSet(result)| == |result|
      {
        ListsOneMore(ToSet(result), finalLeft, ilhs);
        PartnerIsNode(g, finalLeft, finalRight, ilhs);
        if left[ilhs] == UNUSED { continue; }
        var pair: Edge := (ilhs, left[ilhs]);
        ToSetAppend(result, pair);
        result := result + [pair];
      }
      PairsAreMaximum(g, left[..], right[..], dead, ToSet(result));
    }
  }

  // ----- optimality -----

  /** The pairs hold the partner of each matched left node below n. */
  ghost predicate Lists(pairs: set<Edge>, left: seq<int>, n: nat) {
    forall l: nat | l < n && l < |left| && left[l] != UNUSED :: (l, left[l]) in pairs
  }

  lemma ListsOneMore(pairs: set<Edge>, left: seq<int>, n: nat)
    ensures Lists(pairs, left, 0)
    ensures n < |left| && Lists(pairs, left, n) && left[n] == UNUSED ==> Lists(pairs, left, n + 1)
    ensures n < |left| && Lists(pairs, left, n) && left[n] >= 0 ==> Lists(pairs + {(n, left[n])}, left, n + 1)
  {
  }

  ghost predicate UnusedFrom(left: seq<int>, n: nat) {
    forall l | n <= l < |left| :: left[l] == UNUSED
  }

  lemma NextUnused(left: seq<int>, n: nat)
    requires n < |left| && UnusedFrom(left, n)
    ensures left[n] == UNUSED && UnusedFrom(left, n + 1)
  {
  }

  lemma NothingMatched(g: Graph, left: seq<int>, right: seq<int>)
    requires |left| == g.lhs && |right| == g.rhs
    requires (forall l | 0 <= l < |left| :: left[l] == UNUSED) && forall r | 0 <= r < |right| :: right[r] == UNUSED
    ensures MutuallyReferent(g, left, right) && Dead(g, right, {}) && SettledBelow(g, left, {}, 0) &&
      UnusedFrom(left, 0)
  {
  }

  lemma PartnerIsNode(g: Graph, left: seq<int>, right: seq<int>, l: nat)
    requires MutuallyReferent(g, left, right) && l < |left|
    ensures left[l] == UNUSED || left[l] >= 0
  {
  }

  /** Every left node below n that was left unmatched has only dead neighbours. */
  ghost predicate SettledBelow(g: Graph, left: seq<int>, dead: set<int>, n: nat) {
    && |left| == g.lhs
    && forall l | 0 <= l < n && l < |left| && left[l] == UNUSED :: NeighboursIn(g, l, dead)
  }

  lemma SettledAfterAugmenting(g: Graph, left: seq<int>, right: seq<int>, seen: set<int>, dead: set<int>,
                               left': seq<int>, right': seq<int>, ilhs: nat)
    requires MutuallyReferent(g, left, right) && Dead(g, right, dead) && SettledBelow(g, left, dead, ilhs)
    requires ilhs < |left| && UnusedFrom(left, ilhs)
    requires Augmented(g, left, right, seen, dead, left', right', ilhs)
    ensures MutuallyReferent(g, left', right') && Dead(g, right', dead)
    ensures SettledBelow(g, left', dead, ilhs + 1) && UnusedFrom(left', ilhs + 1)
  {
  }

  lemma SettledAfterFailure(g: Graph, left: seq<int>, right: seq<int>, dead: set<int>, seen0: seq<bool>,
                            seen: seq<bool>, ilhs: nat)
    requires MutuallyReferent(g, left, right) && Dead(g, right, dead) && SettledBelow(g, left, dead, ilhs)
    requires Seen(seen0) == {} && Exhausted(g, right, seen0, seen) && NeighboursIn(g, ilhs, Seen(seen))
    ensures Dead(g, right, dead + Seen(seen)) && SettledBelow(g, left, dead + Seen(seen), ilhs + 1)
  {
    forall r | r in Seen(seen)
      ensures 0 <= r < |right| && right[r] != UNUSED && NeighboursIn(g, right[r], dead + Seen(seen))
    {
      assert r !in Seen(seen0);
    }
  }

  /** The certificate: once every left node is settled, each edge of any matching at all can be
      charged to a matched left node of its own, so no matching is larger. */
  lemma DeadSetBoundsEveryMatching(g: Graph, left: seq<int>, right: seq<int>, dead: set<int>, pairs: set<Edge>,
      other: set<Edge>)
    requires g.WellFormed() && MutuallyReferent(g, left, right)
    requires Dead(g, right, dead) && SettledBelow(g, left, dead, g.lhs)
    requires Lists(pairs, left, |left|)
    requires IsMatching(g, other)
    ensures |other| <= |pairs|
  {
    var charge: map<Edge, nat> := map e | e in other :: if e.1 in dead then right[e.1] else e.0;
    forall e | e in other
      ensures e in g.edges && charge[e] in Lefts(pairs)
      ensures e.1 !in dead ==> forall r | r in dead :: right[r] != e.0
    {
      assert e in g.edges;
      assert (e.0, e.1) == e;
      if e.1 in dead {
        assert (right[e.1], e.1) in pairs;
      } else {
        assert left[e.0] != UNUSED;
        assert (e.0, left[e.0]) in pairs;
      }
    }
    assert charge.Keys == other;
    InjectionBound(charge, Lefts(pairs));
    LeftsAtMost(pairs);
  }

  lemma {:induction false} LeftsAtMost(m: set<Edge>)
    ensures |Lefts(m)| <= |m|
    decreases |m|
  {
    if m == {} {
      assert Lefts(m) == {};
    } else {
      var e :| e in m;
      LeftsAtMost(m - {e});
      assert Lefts(m) == Lefts(m - {e}) + {e.0};
    }
  }

  lemma PairsAreMaximum(g: Graph, left: seq<int>, right: seq<int>, dead: set<int>, pairs: set<Edge>)
    requires g.WellFormed() && MutuallyReferent(g, left, right)
    requires Dead(g, right, dead) && SettledBelow(g, left, dead, g.lhs)
    requires Lists(pairs, left, |left|)
    requires forall e | e in pairs :: e.0 < |left| && left[e.0] == e.1
    ensures IsMaximumMatching(g, pairs)
  {
    forall e | e in pairs ensures e in g.edges {
      assert (e.0, left[e.0]) == e;
    }
    forall other | IsMatching(g, other) ensures |other| <= |pairs| {
      DeadSetBoundsEveryMatching(g, left, right, dead, pairs, other);
    }
  }
}
