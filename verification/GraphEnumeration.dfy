/**
 The edge matrix as a string of bits, the number those bits spell, and the order in which
 repeated incrementing visits all graphs of one size.
 */
module GraphEnumeration {
  import opened BipartiteGraphs
  import opened Powers

  // ----- bits as a number, least significant first -----

  function Number(bits: seq<bool>): (v: nat)
    ensures v < Pow2(|bits|)
  {
    if bits == [] then 0 else (if bits[0] then 1 else 0) + 2 * Number(bits[1..])
  }

  /** Clears the leading true bits and sets the first false one, if any. */
  function Increment(bits: seq<bool>): (next: seq<bool>)
    ensures |next| == |bits|
  {
    if bits == [] then [] else if bits[0] then [false] + Increment(bits[1..]) else [true] + bits[1..]
  }

  lemma {:induction false} IncrementAddsOne(bits: seq<bool>)
    ensures Number(Increment(bits)) == if Number(bits) + 1 == Pow2(|bits|) then 0 else Number(bits) + 1
    ensures Number(bits) + 1 == Pow2(|bits|) <==> forall k | 0 <= k < |bits| :: bits[k]
  {
    if bits != [] {
      var rest := bits[1..];
      IncrementAddsOne(rest);
      assert forall k | 0 <= k < |rest| :: rest[k] == bits[k + 1];
      assert forall k | 0 < k < |bits| :: bits[k] == rest[k - 1];
      assert Increment(bits)[1..] == if bits[0] then Increment(rest) else rest;
    }
  }

  /** The shape of an increment at the first false bit, and at wrap-around. */
  lemma {:induction false} IncrementAt(bits: seq<bool>, k: nat)
    requires k <= |bits| && forall i | 0 <= i < k :: bits[i]
    requires k < |bits| ==> !bits[k]
    ensures |Increment(bits)| == |bits|
    ensures forall i | 0 <= i < |bits| ::
      Increment(bits)[i] == if i < k then false else if i == k then true else bits[i]
  {
    if k > 0 {
      IncrementAt(bits[1..], k - 1);
    }
  }

  lemma {:induction false} SameNumberSameBits(a: seq<bool>, b: seq<bool>)
    requires |a| == |b| && Number(a) == Number(b)
    ensures a == b
  {
    if a != [] {
      assert a[0] == b[0];
      SameNumberSameBits(a[1..], b[1..]);
      assert a == [a[0]] + a[1..] && b == [b[0]] + b[1..];
    }
  }

  /** The matrix after k increments of the empty one of n cells. */
  function Visited(n: nat, k: nat): (bits: seq<bool>)
    ensures |bits| == n
  {
    if k == 0 then seq(n, _ => false) else Increment(Visited(n, k - 1))
  }

  lemma {:induction false} NumberOfEmpty(n: nat)
    ensures Number(seq(n, _ => false)) == 0
  {
    if n > 0 {
      NumberOfEmpty(n - 1);
      assert seq(n, _ => false)[1..] == seq(n - 1, _ => false);
    }
  }

  lemma {:induction false} VisitedNumber(n: nat, k: nat)
    requires k < Pow2(n)
    ensures Number(Visited(n, k)) == k
  {
    if k == 0 {
      NumberOfEmpty(n);
    } else {
      VisitedNumber(n, k - 1);
      IncrementAddsOne(Visited(n, k - 1));
    }
  }

  // ----- bits as a graph -----

  function Cell(rhs: nat, l: nat, r: nat): nat {
    l * rhs + r
  }

  lemma CellInRange(lhs: nat, rhs: nat, l: nat, r: nat)
    requires l < lhs && r < rhs
    ensures Cell(rhs, l, r) < lhs * rhs
  {
    assert (l + 1) * rhs <= lhs * rhs;
  }

  lemma CellsDistinct(rhs: nat, l: nat, r: nat)
    requires r < rhs
    ensures Cell(rhs, l, r) / rhs == l && Cell(rhs, l, r) % rhs == r
  {
    var x := Cell(rhs, l, r);
    assert x == x / rhs * rhs + x % rhs;
    QuotientsAgree(rhs, l, r, x / rhs, x % rhs);
  }

  lemma QuotientsAgree(d: nat, q: nat, r: nat, q': nat, r': nat)
    requires r < d && r' < d && q * d + r == q' * d + r'
    ensures q == q' && r == r'
  {
    if q < q' {
      LargerQuotient(d, q, q');
    } else if q' < q {
      LargerQuotient(d, q', q);
    }
  }

  lemma {:induction false} LargerQuotient(d: nat, q: nat, q': nat)
    requires q < q'
    ensures q' * d >= q * d + d
  {
    if q + 1 < q' {
      LargerQuotient(d, q, q' - 1);
    }
  }

  ghost function GraphOf(lhs: nat, rhs: nat, bits: seq<bool>): (g: Graph)
    ensures g.WellFormed() && g.lhs == lhs && g.rhs == rhs
    ensures forall l: nat, r: nat | l < lhs && r < rhs :: Cell(rhs, l, r) < |bits| ==>
      ((l, r) in g.edges <==> bits[Cell(rhs, l, r)])
  {
    Graph(lhs, rhs, set l: nat, r: nat |
      l in Range(lhs) && r in Range(rhs) && Cell(rhs, l, r) < |bits| && bits[Cell(rhs, l, r)] :: (l, r))
  }

  ghost function BitsOf(g: Graph): (bits: seq<bool>)
    ensures |bits| == g.lhs * g.rhs
  {
    seq(g.lhs * g.rhs, k requires 0 <= k < g.lhs * g.rhs => g.rhs > 0 && (k / g.rhs, k % g.rhs) in g.edges)
  }

  lemma BitsOfRoundTrip(g: Graph)
    requires g.WellFormed()
    ensures GraphOf(g.lhs, g.rhs, BitsOf(g)) == g
  {
    var h := GraphOf(g.lhs, g.rhs, BitsOf(g));
    forall l: nat, r: nat ensures (l, r) in h.edges <==> (l, r) in g.edges {
      if l < g.lhs && r < g.rhs {
        CellInRange(g.lhs, g.rhs, l, r);
        CellsDistinct(g.rhs, l, r);
      }
    }
    forall e: Edge ensures e in h.edges <==> e in g.edges {
      assert (e.0, e.1) == e;
    }
  }

  lemma DistinctBitsDistinctGraphs(lhs: nat, rhs: nat, a: seq<bool>, b: seq<bool>)
    requires |a| == |b| == lhs * rhs && GraphOf(lhs, rhs, a) == GraphOf(lhs, rhs, b)
    ensures a == b
  {
    hide Cell;
    forall k: nat | k < lhs * rhs ensures a[k] == b[k] {
      var l, r := CellAt(lhs, rhs, k);
      assert (l, r) in GraphOf(lhs, rhs, a).edges <==> a[Cell(rhs, l, r)];
    }
  }

  lemma CellAt(lhs: nat, rhs: nat, k: nat) returns (l: nat, r: nat)
    requires k < lhs * rhs
    ensures l < lhs && r < rhs && Cell(rhs, l, r) == k
  {
    l, r := k / rhs, k % rhs;
    if l >= lhs {
      LargerOrEqualProduct(lhs, l, rhs);
    }
  }

  lemma LargerOrEqualProduct(a: nat, b: nat, d: nat)
    requires a <= b
    ensures a * d <= b * d
  {
  }

  /** Starting from the empty graph, each graph of the given size is visited at exactly one of the
      2^(lhs*rhs) positions, the one its matrix spells as a number. */
  lemma EveryGraphVisitedExactlyOnce(g: Graph, k: nat)
    requires g.WellFormed() && k < Pow2(g.lhs * g.rhs)
    ensures GraphOf(g.lhs, g.rhs, Visited(g.lhs * g.rhs, k)) == g <==> k == Number(BitsOf(g))
  {
    var n := g.lhs * g.rhs;
    var bits := BitsOf(g);
    BitsOfRoundTrip(g);
    VisitedNumber(n, k);
    if k == Number(bits) {
      SameNumberSameBits(Visited(n, k), bits);
    }
    if GraphOf(g.lhs, g.rhs, Visited(n, k)) == g {
      DistinctBitsDistinctGraphs(g.lhs, g.rhs, Visited(n, k), bits);
    }
  }
}
