/** The splittable random generator: counter mode over Threefish-256. */
module RandomGenerator {
  import opened Powers
  import opened Threefish

  const BITS: bv8 := 64
  const COUNTER_MAX: Word := 0xFFFF_FFFF_FFFF_FFFF

  // ----- the generator as a value -----

  datatype Generator = Generator(key: Block, block: Block, bits: Word, counter: Word, bitsi: bv8) {
    ghost predicate Valid() {
      bitsi <= BITS
    }
  }

  /** The cipher block for the current path bits and counter. */
  function Mashed(g: Generator): Block {
    Encrypt(g.key, Block(g.bits, g.counter, 0, 0))
  }

  function Bit(i: bv8): Word
    requires i < 64
  {
    1 << i
  }

  function SetBit(bits: Word, i: bv8): Word
    requires i < 64
  {
    bits | Bit(i)
  }

  predicate Meets(x: Word, y: Word) {
    x & y != 0
  }

  predicate TestBit(bits: Word, i: bv8)
    requires i < 64
  {
    Meets(bits, Bit(i))
  }

  /** Records one step of a split path; a full path is first folded into the key. */
  function Appended(g: Generator, x: bool): (g': Generator)
    requires g.Valid()
    ensures g'.Valid()
  {
    var h := if g.bitsi == BITS then g.(key := Mashed(g), bits := 0, bitsi := 0) else g;
    h.(bits := if x then SetBit(h.bits, h.bitsi) else h.bits, bitsi := h.bitsi + 1)
  }

  /** The position of the counter within its block. */
  function Lane(counter: Word): (i: nat)
    ensures i < 4
  {
    if counter % 4 == 0 then 0 else if counter % 4 == 1 then 1 else if counter % 4 == 2 then 2 else 3
  }

  predicate Exhausted(counter: Word) {
    counter == COUNTER_MAX
  }

  function WordAt(b: Block, i: nat): Word
    requires i < 4
  {
    match i
    case 0 => b.w0
    case 1 => b.w1
    case 2 => b.w2
    case 3 => b.w3
  }

  function Drawn(g: Generator): (r: (Generator, Word))
    requires g.Valid()
    ensures r.0.Valid()
  {
    var i := Lane(g.counter);
    var h := if i == 0 then g.(block := Mashed(g)) else g;
    (if Exhausted(g.counter) then Appended(h, true).(counter := 0)
      else h.(counter := Plus(h.counter, 1)), WordAt(h.block, i))
  }

  // ----- counting in words -----

  /** The number n modulo 2^64. */
  function Count(n: nat): Word {
    if n == 0 then 0 else Plus(Count(n - 1), 1)
  }

  /** The number of counter values. */
  const COUNTS: nat := 0x1_0000_0000_0000_0000

  lemma CountsArePower()
    ensures COUNTS == Pow2(64)
  {
    Pow2Of64();
  }

  lemma {:induction false} CountSum(a: nat, b: nat)
    ensures Count(a + b) == Plus(Count(a), Count(b))
  {
    hide Plus;
    if b == 0 {
      PlusZero(Count(a));
    } else {
      CountSum(a, b - 1);
      PlusAssociates(Count(a), Count(b - 1), 1);
    }
  }

  lemma {:induction false} CountParity(n: nat)
    ensures Count(n) & 1 == if n % 2 == 0 then 0 else 1
  {
    if n > 0 {
      CountParity(n - 1);
      ParityStep(Count(n - 1));
    }
  }

  lemma ParityStep(w: Word)
    ensures Plus(w, 1) & 1 == if w & 1 == 0 then 1 else 0
  {
  }

  lemma {:induction false} LaneOfCount(n: nat)
    ensures Lane(Count(n)) == n % 4
  {
    hide Lane;
    if n == 0 {
      LaneZero();
    } else {
      LaneOfCount(n - 1);
      LaneStep(Count(n - 1));
    }
  }

  lemma LaneZero()
    ensures Lane(0) == 0
  {
  }

  lemma LaneStep(w: Word)
    ensures Lane(Plus(w, 1)) == if Lane(w) == 3 then 0 else Lane(w) + 1
  {
  }

  /** A word shifted left by n places, one at a time. */
  function Shifted(w: Word, n: nat): Word
    decreases n
  {
    if n == 0 then w else Shifted(w << 1, n - 1)
  }

  /** Shifting out all but the lowest 64 - n bits of a count leaves zero only for multiples of 2^(64-n). */
  lemma {:induction false} CountNotZero(d: nat, n: nat)
    requires n < 64 && 0 < d < Pow2(64 - n)
    ensures Shifted(Count(d), n) != 0
    decreases d
  {
    hide Plus, Count;
    CountParity(d);
    if d % 2 == 1 {
      LowestBit(Count(d));
      BitSurvives(Count(d), 0, n);
    } else {
      var m := d / 2;
      CountSum(m, m);
      DoubleIsShift(Count(m));
      assert n < 63;
      CountNotZero(m, n + 1);
    }
  }

  lemma LowestBit(w: Word)
    requires w & 1 == 1
    ensures TestBit(w, 0)
  {
  }

  lemma {:induction false} BitSurvives(w: Word, i: bv8, n: nat)
    requires i < 64 && i as int + n < 64 && TestBit(w, i)
    ensures Shifted(w, n) != 0
    decreases n
  {
    hide TestBit;
    if n == 0 {
      SomeBit(w, i);
    } else {
      RoomLeft(i);
      SameIndex(i, 63);
      ShiftedBit(w, i);
      BitSurvives(w << 1, i + 1, n - 1);
    }
  }

  lemma SomeBit(w: Word, i: bv8)
    requires i < 64 && TestBit(w, i)
    ensures w != 0
  {
  }

  lemma ShiftedBit(w: Word, i: bv8)
    requires i < 63 && TestBit(w, i)
    ensures TestBit(w << 1, i + 1)
  {
  }

  lemma DoubleIsShift(w: Word)
    ensures Plus(w, w) == w << 1
  {
  }

  lemma NextShift(j: bv8)
    requires j < 64
    ensures (j + 1) as int == j as int + 1
  {
  }

  /** Counts below 2^64 are distinct. */
  lemma CountIsInjective(a: nat, b: nat)
    requires a < b < COUNTS
    ensures Count(a) != Count(b)
  {
    hide Plus, Count, Pow2;
    CountsArePower();
    CountSum(a, b - a);
    CountNotZero(b - a, 0);
    SumDiffers(Count(a), Count(b - a));
  }

  lemma SumDiffers(x: Word, y: Word)
    requires y != 0
    ensures Plus(x, y) != x
  {
  }

  lemma {:induction false} CountOfPow2(i: bv8)
    requires i < 64
    ensures Count(Pow2(i as int)) == 1 << i
    decreases i as int
  {
    if i == 0 {
      PlusZeroLeft(1);
    } else {
      NextShift(i - 1);
      CountOfPow2(i - 1);
      CountSum(Pow2((i - 1) as int), Pow2((i - 1) as int));
      BitDoubled(i - 1);
    }
  }

  lemma PlusZeroLeft(x: Word)
    ensures Plus(0, x) == x
  {
  }

  lemma BitDoubled(j: bv8)
    requires j < 63
    ensures Plus(1 << j, 1 << j) == 1 << (j + 1)
  {
  }

  predicate IsTopBit(w: Word) {
    w == 1 << 63
  }

  lemma HalfCount()
    ensures IsTopBit(Count(Pow2(63)))
  {
    hide Count, Pow2;
    CountOfPow2(63);
  }

  lemma LastCount()
    ensures Exhausted(Count(Pow2(64) - 1))
  {
    hide *;
    var half := Pow2(63);
    Pow2Step(63);
    HalfCount();
    CountSum(half, half);
    CountStep(half + half);
    BeforeWrap(Count(Pow2(64) - 1), Count(half));
  }

  lemma CountStep(n: nat)
    requires n > 0
    ensures Count(n) == Plus(Count(n - 1), 1)
  {
  }

  /** Only the last count below 2^64 is the largest word. */
  lemma CountReachesMax(n: nat)
    requires n < COUNTS
    ensures Exhausted(Count(n)) <==> n == COUNTS - 1
  {
    hide Count, Pow2;
    LastCount();
    CountsArePower();
    if n < COUNTS - 1 {
      CountIsInjective(n, COUNTS - 1);
    }
  }

  lemma Pow2Step(n: nat)
    ensures Pow2(n + 1) == 2 * Pow2(n)
  {
  }

  lemma BeforeWrap(w: Word, half: Word)
    requires IsTopBit(half) && Plus(w, 1) == Plus(half, half)
    ensures Exhausted(w)
  {
  }

  // ----- drawing numbers -----

  /** The generator after n draws. */
  function AfterDraws(g: Generator, n: nat): (h: Generator)
    requires g.Valid()
    ensures h.Valid()
  {
    if n == 0 then g else Drawn(AfterDraws(g, n - 1)).0
  }

  /** The input of the cipher for a path and a block number. */
  function Input(bits: Word, counter: Word): Block {
    Block(bits, counter, 0, 0)
  }

  /** The multiple of four at or before n. */
  function BlockStart(n: nat): nat {
    n - n % 4
  }

  function Offset(n: nat): (i: nat)
    ensures i < 4
  {
    n % 4
  }

  /** Between two blocks the generator holds the block made at the last multiple of four. */
  ghost predicate DrawnFrom(g: Generator, n: nat, h: Generator) {
    && h.key == g.key && h.bits == g.bits && h.bitsi == g.bitsi && h.counter == Count(n)
    && (Offset(n) != 0 ==> h.block == Encrypt(g.key, Input(g.bits, Count(BlockStart(n)))))
  }

  lemma {:induction false} StateAfterDraws(g: Generator, n: nat)
    requires g.Valid() && g.counter == 0 && n < COUNTS
    ensures DrawnFrom(g, n, AfterDraws(g, n))
  {
    hide DrawnFrom, Drawn, Count;
    if n == 0 {
      NothingDrawn(g);
    } else {
      StateAfterDraws(g, n - 1);
      OneMoreDraw(g, n - 1, AfterDraws(g, n - 1));
    }
  }

  lemma NothingDrawn(g: Generator)
    requires g.Valid() && g.counter == 0
    ensures DrawnFrom(g, 0, g)
  {
    hide Encrypt;
  }

  lemma OneMoreDraw(g: Generator, n: nat, h: Generator)
    requires h.Valid() && n + 1 < COUNTS && DrawnFrom(g, n, h)
    ensures DrawnFrom(g, n + 1, Drawn(h).0)
  {
    hide Encrypt, Plus, Lane, Appended, WordAt, Exhausted, Offset, BlockStart;
    LaneOfCount(n);
    CountReachesMax(n);
    BlockStartStep(n);
  }

  lemma BlockStartStep(n: nat)
    ensures Offset(n) == n % 4
    ensures Offset(n) == 0 ==> BlockStart(n + 1) == n
    ensures Offset(n) != 0 && Offset(n + 1) != 0 ==> BlockStart(n + 1) == BlockStart(n)
  {
  }

  /** The n-th number, for every n below 2^64, is one word of one encrypted counter. */
  lemma NthNumber(g: Generator, n: nat)
    requires g.Valid() && g.counter == 0 && n < COUNTS
    ensures Drawn(AfterDraws(g, n)).1 == WordAt(Encrypt(g.key, Input(g.bits, Count(BlockStart(n)))), Offset(n))
  {
    hide Encrypt, Plus, Lane, Appended, WordAt, Exhausted, AfterDraws;
    StateAfterDraws(g, n);
    LaneOfCount(n);
  }

  /** After 2^64 draws the path has grown by one step and counting starts again. */
  lemma WrapAround(g: Generator)
    requires g.Valid() && g.counter == 0
    ensures var h := AfterDraws(g, COUNTS);
      h == Appended(g.(counter := COUNTER_MAX, block := h.block), true).(counter := 0)
  {
    hide Mashed, Plus, WordAt, SetBit;
    StateAfterDraws(g, COUNTS - 1);
    CountReachesMax(COUNTS - 1);
    LaneOfCount(COUNTS - 1);
  }

  /** A generator never draws from the same block twice before its counter wraps. */
  lemma BlocksDoNotRepeat(g: Generator, m: nat, n: nat)
    requires m < n < COUNTS
    ensures Encrypt(g.key, Input(g.bits, Count(m))) != Encrypt(g.key, Input(g.bits, Count(n)))
  {
    hide Encrypt;
    CountIsInjective(m, n);
    if Encrypt(g.key, Input(g.bits, Count(m))) == Encrypt(g.key, Input(g.bits, Count(n))) {
      EncryptIsInjective(g.key, Input(g.bits, Count(m)), Input(g.bits, Count(n)));
    }
  }

  // ----- splitting -----

  /** The generator reached by a path of splits: false is the one that stays, true the one returned. */
  function AfterPath(g: Generator, path: seq<bool>): (h: Generator)
    requires g.Valid()
    ensures h.Valid()
  {
    if path == [] then g else Appended(AfterPath(g, path[..|path| - 1]), path[|path| - 1])
  }

  /** No bit at or above the next free position is set. */
  ghost predicate Clean(g: Generator) {
    g.bitsi <= BITS && forall i: bv8 | g.bitsi <= i < BITS :: !TestBit(g.bits, i)
  }

  lemma SetThenTest(bits: Word, i: bv8, j: bv8)
    requires i < 64 && j < 64
    ensures TestBit(SetBit(bits, i), j) <==> i == j || TestBit(bits, j)
  {
    hide Bit, Meets;
    BitsMeet(i, j);
    MeetsOr(bits, Bit(i), Bit(j));
  }

  lemma MeetsOr(bits: Word, m: Word, k: Word)
    ensures Meets(bits | m, k) <==> Meets(bits, k) || Meets(m, k)
  {
    hide Meets;
    if Meets(bits | m, k) {
      if !Meets(bits, k) && !Meets(m, k) {
        OrMisses(bits, m, k);
      }
    } else {
      PartsMiss(bits, m, k);
    }
  }

  lemma OrMisses(x: Word, y: Word, k: Word)
    requires !Meets(x, k) && !Meets(y, k)
    ensures !Meets(x | y, k)
  {
  }

  lemma PartsMiss(x: Word, y: Word, k: Word)
    requires !Meets(x | y, k)
    ensures !Meets(x, k) && !Meets(y, k)
  {
  }

  lemma BitsMeet(i: bv8, j: bv8)
    requires i < 64 && j < 64
    ensures Meets(Bit(i), Bit(j)) <==> i == j
  {
  }

  lemma ZeroHasNoBits(j: bv8)
    requires j < 64
    ensures !TestBit(0, j)
  {
  }

  lemma AppendedBits(g: Generator, x: bool, j: bv8)
    requires Clean(g) && g.bitsi < BITS && j < BITS
    ensures Appended(g, x).key == g.key && Appended(g, x).bitsi == g.bitsi + 1
    ensures TestBit(Appended(g, x).bits, j) <==> if j == g.bitsi then x else TestBit(g.bits, j)
  {
    hide SetBit, TestBit, Encrypt;
    SetThenTest(g.bits, g.bitsi, j);
  }

  lemma AppendedIsClean(g: Generator, x: bool)
    requires Clean(g) && g.bitsi < BITS
    ensures Clean(Appended(g, x))
  {
    hide TestBit, Encrypt, Appended;
    forall j: bv8 | Appended(g, x).bitsi <= j < BITS ensures !TestBit(Appended(g, x).bits, j) {
      AppendedBits(g, x, j);
      NotBelow(g.bitsi, j);
    }
    AppendedBits(g, x, g.bitsi);
  }

  /** So every generator that splitting reaches is clean, also after its path has been folded away. */
  lemma SplittingKeepsClean(g: Generator, x: bool)
    requires Clean(g)
    ensures Clean(Appended(g, x))
  {
    hide TestBit, Encrypt;
    if g.bitsi == BITS {
      var h := g.(key := Mashed(g), bits := 0, bitsi := 0);
      forall i: bv8 | i < BITS ensures !TestBit(0, i) {
        ZeroHasNoBits(i);
      }
      AppendedIsClean(h, x);
      assert Appended(g, x) == Appended(h, x);
    } else {
      AppendedIsClean(g, x);
    }
  }

  lemma NotBelow(i: bv8, j: bv8)
    requires i < 64
    ensures i + 1 <= j ==> i != j && i <= j
  {
  }

  lemma SameIndex(i: bv8, j: bv8)
    ensures i == j <==> i as int == j as int
    ensures i < j <==> (i as int) < j as int
  {
  }

  lemma {:induction false} IndexFor(n: nat) returns (j: bv8)
    requires n < 64
    ensures j < 64 && j as int == n
  {
    if n == 0 {
      j := 0;
    } else {
      j := IndexFor(n - 1);
      RoomLeft(j);
      j := j + 1;
      SameIndex(j, 64);
    }
  }

  /** What stands at position k when a path is written from position start on, over what was there. */
  predicate Written(start: int, path: seq<bool>, k: int, before: bool) {
    if start <= k < start + |path| then path[k - start] else before
  }

  lemma OneMoreWritten(start: int, path: seq<bool>, x: bool, k: int, before: bool)
    ensures Written(start, path + [x], k, before) <==>
      if k == start + |path| then x else Written(start, path, k, before)
  {
  }

  /** h is g after the path: same key and counter, and every bit j as the path has written it. */
  ghost predicate Holds(g: Generator, path: seq<bool>, h: Generator) {
    && Clean(h) && h.key == g.key && h.counter == g.counter && h.bitsi as int == g.bitsi as int + |path|
    && forall j: bv8 | j < 64 ::
         TestBit(h.bits, j) <==> Written(g.bitsi as int, path, j as int, TestBit(g.bits, j))
  }

  lemma OneMoreBit(h: Generator, x: bool, j: bv8)
    requires Clean(h) && h.bitsi as int < 64 && j < 64
    ensures var h' := Appended(h, x);
      && Clean(h') && h'.key == h.key && h'.counter == h.counter && h'.bitsi as int == h.bitsi as int + 1
      && (TestBit(h'.bits, j) <==> if j as int == h.bitsi as int then x else TestBit(h.bits, j))
  {
    hide TestBit, Clean, Appended, Encrypt;
    CleanIsValid(h);
    RoomLeft(h.bitsi);
    AppendedBits(h, x, j);
    AppendedIsClean(h, x);
    AppendedKeepsCounter(h, x);
    SameIndex(j, h.bitsi);
  }

  lemma OneMoreStepHolds(g: Generator, path: seq<bool>, x: bool, h: Generator)
    requires Holds(g, path, h) && g.bitsi as int + |path| < 64
    ensures Holds(g, path + [x], Appended(h, x))
  {
    hide TestBit, Clean, Appended, Written;
    OneMoreBit(h, x, 0);
    forall j: bv8 | j < 64
      ensures TestBit(Appended(h, x).bits, j) <==>
        Written(g.bitsi as int, path + [x], j as int, TestBit(g.bits, j)) {
      OneMoreBit(h, x, j);
      OneMoreWritten(g.bitsi as int, path, x, j as int, TestBit(g.bits, j));
    }
  }

  /** The bits of a path, from the lowest free position of the starting point upwards. */
  lemma {:induction false} PathBits(g: Generator, path: seq<bool>)
    requires Clean(g) && g.bitsi as int + |path| <= 64
    ensures Holds(g, path, AfterPath(g, path))
    decreases |path|
  {
    hide *;
    CleanIsValid(g);
    if path == [] {
      NoSteps(g);
      NothingHolds(g);
    } else {
      var shorter, x := path[..|path| - 1], path[|path| - 1];
      PathBits(g, shorter);
      assert path == shorter + [x];
      LastStep(g, shorter, x);
      OneMoreStepHolds(g, shorter, x, AfterPath(g, shorter));
    }
  }

  lemma NothingHolds(g: Generator)
    requires Clean(g)
    ensures Holds(g, [], g)
  {
    hide TestBit, Clean;
  }

  lemma NoSteps(g: Generator)
    requires g.Valid()
    ensures AfterPath(g, []) == g
  {
  }

  lemma RoomLeft(i: bv8)
    requires i as int < 64
    ensures i < BITS && (i + 1) as int == i as int + 1
  {
  }

  lemma AppendedKeepsCounter(g: Generator, x: bool)
    requires g.Valid()
    ensures Appended(g, x).counter == g.counter && Appended(g, x).block == g.block
  {
  }

  /** The branch taken at position k; after its end a path stays. */
  predicate Branch(path: seq<bool>, k: nat) {
    k < |path| && path[k]
  }

  /** The path bit at the position of step k is that step, also past the end of the path. */
  lemma BranchBit(g: Generator, path: seq<bool>, k: nat) returns (j: bv8)
    requires Clean(g) && g.bitsi as int + |path| <= 64 && g.bitsi as int + k < 64
    ensures j < 64 && j as int == g.bitsi as int + k
    ensures AfterPath(g, path).key == g.key && (TestBit(AfterPath(g, path).bits, j) <==> Branch(path, k))
  {
    hide TestBit, AfterPath;
    j := IndexFor(g.bitsi as int + k);
    PathBits(g, path);
    SameIndex(g.bitsi, j);
  }

  /** Generators whose paths differ at some step, also past the end of one of them, have no cipher block
      in common, whatever their counters. */
  lemma SplitStreamsAreDisjoint(g: Generator, p: seq<bool>, q: seq<bool>, k: nat, c: Word, c': Word)
    requires Clean(g) && g.bitsi as int + |p| <= 64 && g.bitsi as int + |q| <= 64
    requires Branch(p, k) != Branch(q, k)
    ensures Mashed(AfterPath(g, p).(counter := c)) != Mashed(AfterPath(g, q).(counter := c'))
  {
    hide TestBit, Encrypt, Clean, AfterPath;
    var i := BranchBit(g, p, k);
    var j := BranchBit(g, q, k);
    SameIndex(i, j);
    var x, y := Input(AfterPath(g, p).bits, c), Input(AfterPath(g, q).bits, c');
    if Encrypt(g.key, x) == Encrypt(g.key, y) {
      EncryptIsInjective(g.key, x, y);
    }
  }

  function Stays(n: nat): (path: seq<bool>)
    ensures |path| == n && forall k | 0 <= k < n :: !path[k]
  {
    seq(n, _ => false)
  }

  /** Staying splits change neither the key nor the path bits. */
  lemma {:induction false} StayingSharesTheStream(g: Generator, p: seq<bool>, n: nat)
    requires Clean(g) && g.bitsi as int + |p| + n <= 64
    ensures AfterPath(g, p + Stays(n)).bits == AfterPath(g, p).bits
    ensures AfterPath(g, p + Stays(n)).key == AfterPath(g, p).key
  {
    hide *;
    StaysOnce(p, n);
    if n > 0 {
      var shorter := p + Stays(n - 1);
      StayingSharesTheStream(g, p, n - 1);
      CleanIsValid(g);
      LastStep(g, shorter, false);
      RoomAfterPath(g, shorter);
      StayKeepsBits(AfterPath(g, shorter));
    }
  }

  lemma RoomAfterPath(g: Generator, path: seq<bool>)
    requires Clean(g) && g.bitsi as int + |path| < 64
    ensures g.Valid() && AfterPath(g, path).bitsi < BITS
  {
    hide TestBit, Clean, Written, AfterPath;
    CleanIsValid(g);
    PathBits(g, path);
    RoomLeft(AfterPath(g, path).bitsi);
  }

  lemma StaysOnce(p: seq<bool>, n: nat)
    ensures p + Stays(n) == if n == 0 then p else (p + Stays(n - 1)) + [false]
  {
  }

  lemma CleanIsValid(g: Generator)
    requires Clean(g)
    ensures g.Valid()
  {
  }

  lemma LastStep(g: Generator, path: seq<bool>, x: bool)
    requires g.Valid()
    ensures AfterPath(g, path + [x]) == Appended(AfterPath(g, path), x)
  {
    assert (path + [x])[..|path|] == path;
  }

  lemma StayKeepsBits(g: Generator)
    requires g.Valid() && g.bitsi < BITS
    ensures Appended(g, false).bits == g.bits && Appended(g, false).key == g.key
  {
    hide Encrypt;
  }

  /** The paths are equal once the shorter one is extended by staying splits. */
  ghost predicate SameBranches(p: seq<bool>, q: seq<bool>) {
    forall k: nat :: Branch(p, k) == Branch(q, k)
  }

  lemma PaddedPath(p: seq<bool>, q: seq<bool>)
    requires SameBranches(p, q) && |p| <= |q|
    ensures q == p + Stays(|q| - |p|)
  {
    forall k: nat | k < |q| ensures q[k] == (p + Stays(|q| - |p|))[k] {
      assert Branch(p, k) == Branch(q, k);
    }
  }

  lemma SameBranchesShareBlocks(g: Generator, p: seq<bool>, q: seq<bool>, c: Word)
    requires Clean(g) && g.bitsi as int + |q| <= 64 && |p| <= |q| && SameBranches(p, q)
    ensures Mashed(AfterPath(g, p).(counter := c)) == Mashed(AfterPath(g, q).(counter := c))
  {
    hide Encrypt, Clean, AfterPath;
    PaddedPath(p, q);
    StayingSharesTheStream(g, p, |q| - |p|);
  }

  /** Two generators reached from one by splits produce the same block exactly when their counters are
      equal and their paths differ by staying splits at the end at most. */
  lemma BlocksAgreeExactlyWhen(g: Generator, p: seq<bool>, q: seq<bool>, c: Word, c': Word)
    requires Clean(g) && g.bitsi as int + |p| <= 64 && g.bitsi as int + |q| <= 64
    ensures Mashed(AfterPath(g, p).(counter := c)) == Mashed(AfterPath(g, q).(counter := c')) <==>
      c == c' && SameBranches(p, q)
  {
    hide Encrypt, Clean, AfterPath;
    if SameBranches(p, q) {
      if |p| <= |q| {
        SameBranchesShareBlocks(g, p, q, c);
      } else {
        SameBranchesShareBlocks(g, q, p, c);
      }
      CountersSeparate(AfterPath(g, q), c, c');
    } else {
      var k: nat :| Branch(p, k) != Branch(q, k);
      SplitStreamsAreDisjoint(g, p, q, k, c, c');
    }
  }

  lemma CountersSeparate(h: Generator, c: Word, c': Word)
    ensures Mashed(h.(counter := c)) == Mashed(h.(counter := c')) <==> c == c'
  {
    hide Encrypt;
    if Mashed(h.(counter := c)) == Mashed(h.(counter := c')) {
      EncryptIsInjective(h.key, Input(h.bits, c), Input(h.bits, c'));
    }
  }

  // ----- paths longer than the bits -----

  /** A full path folded into the key: what the steps after it start from. */
  function Folded(g: Generator, p: seq<bool>): (h: Generator)
    requires g.Valid()
    ensures h.Valid()
  {
    Generator(Encrypt(g.key, Input(AfterPath(g, p).bits, g.counter)), AfterPath(g, p).block, 0, g.counter, 0)
  }

  lemma FullPathFolds(g: Generator, p: seq<bool>)
    requires Clean(g) && g.bitsi as int + |p| == 64
    ensures g.Valid() && Clean(Folded(g, p)) && AfterPath(g, p).bitsi == BITS
    ensures AfterPath(g, p).key == g.key && AfterPath(g, p).counter == g.counter
  {
    hide TestBit, Clean, Written, AfterPath, Encrypt;
    CleanIsValid(g);
    PathBits(g, p);
    SameIndex(AfterPath(g, p).bitsi, BITS);
    EmptyIsClean(Folded(g, p));
  }

  lemma EmptyIsClean(g: Generator)
    requires g.bits == 0 && g.bitsi == 0
    ensures Clean(g)
  {
    hide TestBit;
    forall i: bv8 | i < 64 ensures !TestBit(0, i) {
      ZeroHasNoBits(i);
    }
  }

  lemma FirstStepAfterFull(h: Generator, x: bool)
    requires h.Valid() && h.bitsi == BITS
    ensures Appended(h, x) ==
      Generator(Encrypt(h.key, Input(h.bits, h.counter)), h.block, if x then 1 else 0, h.counter, 1)
  {
    hide Encrypt;
  }

  lemma FirstStepAfterFold(h: Generator, x: bool)
    requires h.bits == 0 && h.bitsi == 0
    ensures h.Valid() && Appended(h, x) == h.(bits := if x then 1 else 0, bitsi := 1)
  {
    hide Encrypt;
  }

  /** The step after a full path makes a new key out of the old one and all the bits, and is the only one
      recorded under it. */
  lemma FullPathRekeys(g: Generator, p: seq<bool>, x: bool)
    requires Clean(g) && g.bitsi as int + |p| == 64
    ensures g.Valid()
    ensures AfterPath(g, p + [x]) == Generator(
      Encrypt(g.key, Input(AfterPath(g, p).bits, g.counter)), AfterPath(g, p).block, if x then 1 else 0, g.counter, 1)
  {
    hide *;
    FullPathFolds(g, p);
    LastStep(g, p, x);
    FirstStepAfterFull(AfterPath(g, p), x);
  }

  lemma {:induction false} PathsCompose(g: Generator, p: seq<bool>, q: seq<bool>)
    requires g.Valid()
    ensures AfterPath(g, p + q) == AfterPath(AfterPath(g, p), q)
  {
    hide Appended, AfterPath;
    if q == [] {
      assert p + q == p;
      NoSteps(AfterPath(g, p));
    } else {
      var shorter, x := q[..|q| - 1], q[|q| - 1];
      assert q == shorter + [x] && p + q == (p + shorter) + [x];
      PathsCompose(g, p, shorter);
      LastStep(g, p + shorter, x);
      LastStep(AfterPath(g, p), shorter, x);
    }
  }

  /** Everything after a full path happens under the new key. */
  lemma ContinuesUnderNewKey(g: Generator, p: seq<bool>, q: seq<bool>)
    requires Clean(g) && g.bitsi as int + |p| == 64 && q != []
    ensures g.Valid() && AfterPath(g, p + q) == AfterPath(Folded(g, p), q)
  {
    hide *;
    var x, rest := q[0], q[1..];
    assert q == [x] + rest && p + q == (p + [x]) + rest && [] + [x] == [x];
    CleanIsValid(g);
    var h := Folded(g, p);
    FullPathRekeys(g, p, x);
    PathsCompose(g, p + [x], rest);
    FoldedIsEmpty(g, p);
    NoSteps(h);
    LastStep(h, [], x);
    FirstStepAfterFold(h, x);
    PathsCompose(h, [x], rest);
  }

  lemma FoldedIsEmpty(g: Generator, p: seq<bool>)
    requires g.Valid()
    ensures var h := Folded(g, p);
      h == Generator(Encrypt(g.key, Input(AfterPath(g, p).bits, g.counter)), AfterPath(g, p).block, 0, g.counter, 0)
  {
  }

  /** Where the recorded steps of a path of any length start, and which these are. */
  function Recorded(g: Generator, path: seq<bool>): (r: (Generator, seq<bool>))
    requires g.Valid()
    ensures r.0.Valid()
    decreases |path|, if g.bitsi == BITS then 1 else 0
  {
    var room := 64 - g.bitsi as int;
    if |path| <= room then (g, path) else Recorded(Folded(g, path[..room]), path[room..])
  }

  /** A path of any length leaves its last steps in the bits, under a key that all the others were folded
      into, 64 at a time. */
  lemma {:induction false} PathOfAnyLength(g: Generator, path: seq<bool>)
    requires Clean(g)
    ensures g.Valid()
    ensures var r := Recorded(g, path);
      Clean(r.0) && r.0.bitsi as int + |r.1| <= 64 && AfterPath(g, path) == AfterPath(r.0, r.1)
    ensures Holds(Recorded(g, path).0, Recorded(g, path).1, AfterPath(g, path))
    decreases |path|, if g.bitsi == BITS then 1 else 0
  {
    hide TestBit, Clean, Written, AfterPath, Encrypt, Holds, Folded;
    CleanIsValid(g);
    var room := 64 - g.bitsi as int;
    if |path| <= room {
      PathBits(g, path);
    } else {
      assert path == path[..room] + path[room..];
      ContinuesUnderNewKey(g, path[..room], path[room..]);
      FullPathFolds(g, path[..room]);
      FoldedIsEmpty(g, path[..room]);
      PathOfAnyLength(Folded(g, path[..room]), path[room..]);
    }
  }

  /** Two paths of any lengths whose earlier steps were folded into the same key make the same block exactly
      when the counters are equal and the recorded steps differ by staying splits at the end at most. */
  lemma LongPathsAgreeExactlyWhen(g: Generator, p: seq<bool>, q: seq<bool>, c: Word, c': Word)
    requires Clean(g) && g.Valid() && Recorded(g, p).0 == Recorded(g, q).0
    ensures Mashed(AfterPath(g, p).(counter := c)) == Mashed(AfterPath(g, q).(counter := c')) <==>
      c == c' && SameBranches(Recorded(g, p).1, Recorded(g, q).1)
  {
    hide Encrypt, Clean, AfterPath, Recorded, Holds, Mashed, SameBranches;
    PathOfAnyLength(g, p);
    PathOfAnyLength(g, q);
    BlocksAgreeExactlyWhen(Recorded(g, p).0, Recorded(g, p).1, Recorded(g, q).1, c, c');
  }

  /** Different full paths are folded into different keys. */
  lemma FoldedKeysDiffer(g: Generator, p: seq<bool>, q: seq<bool>)
    requires Clean(g) && g.Valid() && g.bitsi as int + |p| == 64 && |q| == |p| && p != q
    ensures Folded(g, p).key != Folded(g, q).key
  {
    hide Encrypt, Clean, AfterPath, Holds;
    var k :| 0 <= k < |p| && p[k] != q[k];
    FullPathFolds(g, p);
    FullPathFolds(g, q);
    SplitStreamsAreDisjoint(g, p, q, k, g.counter, g.counter);
  }

  // ----- the generator as an object -----

  lemma SumsReordered(b0: Word, b1: Word, k: Word, b2: Word, b3: Word, k': Word, t: Word)
    ensures Plus(b0, Plus(b1, k)) == Plus(Plus(b0, k), b1)
    ensures Plus(b2, Plus(Plus(b3, k'), t)) == Plus(Plus(b2, Plus(k', t)), b3)
  {
    hide Plus;
    PlusSwap(b0, b1, k);
    PlusSwap(b2, b3, Plus(k', t));
    PlusAssociates(b3, k', t);
  }

  /** The text of rounds 1 to 4, 9 to 12 and so on, with the subkey folded into the first mixing. */
  method FirstQuad(v: Block, u0: Word, u1: Word, u2: Word, t: Word, u3: Word) returns (r: Block)
    ensures r == Quad(true, AddBlock(v, Block(u0, u1, Plus(u2, t), u3)))
  {
    hide Plus, Xor, Rotl;
    var b0, b1, b2, b3 := v.w0, v.w1, v.w2, v.w3;
    SumsReordered(b0, Plus(b1, u1), u0, b2, Plus(b3, u3), u2, t);
    b1 := Plus(b1, u1); b0 := Plus(b0, Plus(b1, u0)); b1 := Xor(Rotl(b1, 14), b0);
    b3 := Plus(b3, u3); b2 := Plus(b2, Plus(Plus(b3, u2), t)); b3 := Xor(Rotl(b3, 16), b2);
    b0 := Plus(b0, b3); b3 := Xor(Rotl(b3, 52), b0); b2 := Plus(b2, b1); b1 := Xor(Rotl(b1, 57), b2);
    b0 := Plus(b0, b1); b1 := Xor(Rotl(b1, 23), b0); b2 := Plus(b2, b3); b3 := Xor(Rotl(b3, 40), b2);
    b0 := Plus(b0, b3); b3 := Xor(Rotl(b3, 5), b0); b2 := Plus(b2, b1); b1 := Xor(Rotl(b1, 37), b2);
    return Block(b0, b1, b2, b3);
  }

  /** The text of rounds 5 to 8, 13 to 16 and so on. */
  method SecondQuad(v: Block, u0: Word, u1: Word, u2: Word, t: Word, u3: Word) returns (r: Block)
    ensures r == Quad(false, AddBlock(v, Block(u0, u1, Plus(u2, t), u3)))
  {
    hide Plus, Xor, Rotl;
    var b0, b1, b2, b3 := v.w0, v.w1, v.w2, v.w3;
    SumsReordered(b0, Plus(b1, u1), u0, b2, Plus(b3, u3), u2, t);
    b1 := Plus(b1, u1); b0 := Plus(b0, Plus(b1, u0)); b1 := Xor(Rotl(b1, 25), b0);
    b3 := Plus(b3, u3); b2 := Plus(b2, Plus(Plus(b3, u2), t)); b3 := Xor(Rotl(b3, 33), b2);
    b0 := Plus(b0, b3); b3 := Xor(Rotl(b3, 46), b0); b2 := Plus(b2, b1); b1 := Xor(Rotl(b1, 12), b2);
    b0 := Plus(b0, b1); b1 := Xor(Rotl(b1, 58), b0); b2 := Plus(b2, b3); b3 := Xor(Rotl(b3, 22), b2);
    b0 := Plus(b0, b3); b3 := Xor(Rotl(b3, 32), b0); b2 := Plus(b2, b1); b1 := Xor(Rotl(b1, 32), b2);
    return Block(b0, b1, b2, b3);
  }

  /** The local words of the source are the words of the schedule. */
  ghost predicate Scheduled(k: Block, k0: Word, k1: Word, k2: Word, k3: Word, k4: Word, t0: Word, t1: Word, t2: Word) {
    && KeyWord(k, 0) == k0 && KeyWord(k, 1) == k1 && KeyWord(k, 2) == k2 && KeyWord(k, 3) == k3 && KeyWord(k, 4) == k4
    && TweakWord(0) == t0 && TweakWord(1) == t1 && TweakWord(2) == t2
  }

  lemma ScheduleWords(k: Block, k4: Word, t2: Word)
    requires k4 == Xor(Xor(Xor(Xor(k.w0, k.w1), k.w2), k.w3), PARITY) && t2 == Xor(13, 37)
    ensures Scheduled(k, k.w0, k.w1, k.w2, k.w3, k4, 13, 37, t2) && k4 == KeyWord(k, 4)
  {
    hide Xor;
  }

  lemma LastAddition(k: Block, v: Block, k4: Word)
    requires k4 == KeyWord(k, 4)
    ensures Encrypt(k, v) ==
      var r := Rounds(k, v, 72);
      Block(Plus(r.w0, k.w3), Plus(Plus(r.w1, k4), 13), Plus(Plus(r.w2, k.w0), 37), Plus(Plus(r.w3, k.w1), 18))
  {
    hide Plus, Xor, Rounds, Subkey;
    SubkeysFrom18(k);
    var r := Rounds(k, v, 72);
    PlusAssociates(r.w1, k4, 13);
    PlusAssociates(r.w2, k.w0, 37);
    PlusAssociates(r.w3, k.w1, 18);
  }

  /** Rounds 1 to 24 of the unrolled text. */
  method Rounds1To24(k0: Word, k1: Word, k2: Word, k3: Word, k4: Word, t0: Word, t1: Word, t2: Word, v0: Block,
                    ghost k: Block, ghost input: Block)
    returns (v: Block)
    requires Scheduled(k, k0, k1, k2, k3, k4, t0, t1, t2) && v0 == Rounds(k, input, 0)
    ensures v == Rounds(k, input, 24)
  {
    hide Plus, Xor, Rounds, KeyWord, TweakWord, Subkey, Quad, AddBlock;
    v := v0;
    PlusZero(k3);
    SubkeysFrom0(k);
    FourRounds(k, input, 0);
    v := FirstQuad(v, k0, Plus(k1, t0), k2, t1, k3);
    assert v == Rounds(k, input, 4);
    FourRounds(k, input, 1);
    v := SecondQuad(v, k1, Plus(k2, t1), k3, t2, Plus(k4, 1));
    assert v == Rounds(k, input, 8);
    FourRounds(k, input, 2);
    v := FirstQuad(v, k2, Plus(k3, t2), k4, t0, Plus(k0, 2));
    assert v == Rounds(k, input, 12);
    SubkeysFrom3(k);
    FourRounds(k, input, 3);
    v := SecondQuad(v, k3, Plus(k4, t0), k0, t1, Plus(k1, 3));
    assert v == Rounds(k, input, 16);
    FourRounds(k, input, 4);
    v := FirstQuad(v, k4, Plus(k0, t1), k1, t2, Plus(k2, 4));
    assert v == Rounds(k, input, 20);
    FourRounds(k, input, 5);
    v := SecondQuad(v, k0, Plus(k1, t2), k2, t0, Plus(k3, 5));
    assert v == Rounds(k, input, 24);
  }

  /** Rounds 25 to 48 of the unrolled text. */
  method Rounds25To48(k0: Word, k1: Word, k2: Word, k3: Word, k4: Word, t0: Word, t1: Word, t2: Word, v0: Block,
                    ghost k: Block, ghost input: Block)
    returns (v: Block)
    requires Scheduled(k, k0, k1, k2, k3, k4, t0, t1, t2) && v0 == Rounds(k, input, 24)
    ensures v == Rounds(k, input, 48)
  {
    hide Plus, Xor, Rounds, KeyWord, TweakWord, Subkey, Quad, AddBlock;
    v := v0;
    SubkeysFrom6(k);
    FourRounds(k, input, 6);
    v := FirstQuad(v, k1, Plus(k2, t0), k3, t1, Plus(k4, 6));
    assert v == Rounds(k, input, 28);
    FourRounds(k, input, 7);
    v := SecondQuad(v, k2, Plus(k3, t1), k4, t2, Plus(k0, 7));
    assert v == Rounds(k, input, 32);
    FourRounds(k, input, 8);
    v := FirstQuad(v, k3, Plus(k4, t2), k0, t0, Plus(k1, 8));
    assert v == Rounds(k, input, 36);
    SubkeysFrom9(k);
    FourRounds(k, input, 9);
    v := SecondQuad(v, k4, Plus(k0, t0), k1, t1, Plus(k2, 9));
    assert v == Rounds(k, input, 40);
    FourRounds(k, input, 10);
    v := FirstQuad(v, k0, Plus(k1, t1), k2, t2, Plus(k3, 10));
    assert v == Rounds(k, input, 44);
    FourRounds(k, input, 11);
    v := SecondQuad(v, k1, Plus(k2, t2), k3, t0, Plus(k4, 11));
    assert v == Rounds(k, input, 48);
  }

  /** Rounds 49 to 72 of the unrolled text. */
  method Rounds49To72(k0: Word, k1: Word, k2: Word, k3: Word, k4: Word, t0: Word, t1: Word, t2: Word, v0: Block,
                    ghost k: Block, ghost input: Block)
    returns (v: Block)
    requires Scheduled(k, k0, k1, k2, k3, k4, t0, t1, t2) && v0 == Rounds(k, input, 48)
    ensures v == Rounds(k, input, 72)
  {
    hide Plus, Xor, Rounds, KeyWord, TweakWord, Subkey, Quad, AddBlock;
    v := v0;
    SubkeysFrom12(k);
    FourRounds(k, input, 12);
    v := FirstQuad(v, k2, Plus(k3, t0), k4, t1, Plus(k0, 12));
    assert v == Rounds(k, input, 52);
    FourRounds(k, input, 13);
    v := SecondQuad(v, k3, Plus(k4, t1), k0, t2, Plus(k1, 13));
    assert v == Rounds(k, input, 56);
    FourRounds(k, input, 14);
    v := FirstQuad(v, k4, Plus(k0, t2), k1, t0, Plus(k2, 14));
    assert v == Rounds(k, input, 60);
    SubkeysFrom15(k);
    FourRounds(k, input, 15);
    v := SecondQuad(v, k0, Plus(k1, t0), k2, t1, Plus(k3, 15));
    assert v == Rounds(k, input, 64);
    FourRounds(k, input, 16);
    v := FirstQuad(v, k1, Plus(k2, t1), k3, t2, Plus(k4, 16));
    assert v == Rounds(k, input, 68);
    FourRounds(k, input, 17);
    v := SecondQuad(v, k2, Plus(k3, t2), k4, t0, Plus(k0, 17));
    assert v == Rounds(k, input, 72);
  }

  class Random {
    const key: array<Word>
    const block: array<Word>
    var bits: Word
    var counter: Word
    var bitsi: bv8

    ghost predicate Valid()
      reads this
    {
      key.Length == block.Length == 4 && key != block && bitsi <= BITS
    }

    static function Words(a: array<Word>): Block
      requires a.Length == 4
      reads a
    {
      Block(a[0], a[1], a[2], a[3])
    }

    ghost function View(): (g: Generator)
      requires Valid()
      reads this, key, block
      ensures g.Valid()
    {
      Generator(Words(key), Words(block), bits, counter, bitsi)
    }

    constructor (k: Block)
      ensures Valid() && fresh(key) && fresh(block)
      ensures View() == Generator(k, Block(0, 0, 0, 0), 0, 0, 0) && Clean(View())
    {
      key := new Word[4](i => if i == 0 then k.w0 else if i == 1 then k.w1 else if i == 2 then k.w2 else k.w3);
      block := new Word[4](_ => 0);
      bits, counter, bitsi := 0, 0, 0;
      new;
      forall i: bv8 | i < 64 ensures !TestBit(0, i) {
        ZeroHasNoBits(i);
      }
    }

    constructor Copy(other: Random)
      requires other.Valid()
      ensures Valid() && fresh(key) && fresh(block) && View() == other.View()
    {
      key := new Word[4](i requires 0 <= i < 4 reads other.key => other.key[i]);
      block := new Word[4](i requires 0 <= i < 4 reads other.block => other.block[i]);
      bits, counter, bitsi := other.bits, other.counter, other.bitsi;
    }

    /** The unrolled cipher. The output may be the key itself, which is read before it is written. */
    method Mash(output: array<Word>)
      requires Valid() && output.Length == 4
      modifies output
      ensures Words(output) == Mashed(old(View()))
      ensures output != key ==> Words(key) == old(Words(key))
      ensures output != block ==> Words(block) == old(Words(block))
    {
      hide Plus, Xor, Rounds, Scheduled, Encrypt;
      ghost var k := Words(key);
      var v := Block(bits, counter, 0, 0);
      ghost var input := v;
      var k0, k1, k2, k3 := key[0], key[1], key[2], key[3];
      var k4 := Xor(Xor(Xor(Xor(k0, k1), k2), k3), PARITY);
      var t0: Word, t1: Word := 13, 37;
      var t2 := Xor(t0, t1);
      ScheduleWords(k, k4, t2);
      NoRounds(k, input);
      v := Rounds1To24(k0, k1, k2, k3, k4, t0, t1, t2, v, k, input);
      v := Rounds25To48(k0, k1, k2, k3, k4, t0, t1, t2, v, k, input);
      v := Rounds49To72(k0, k1, k2, k3, k4, t0, t1, t2, v, k, input);
      LastAddition(k, input, k4);
      output[0] := Plus(v.w0, k3);
      output[1] := Plus(Plus(v.w1, k4), t0);
      output[2] := Plus(Plus(v.w2, k0), t1);
      output[3] := Plus(Plus(v.w3, k1), 18);
    }

    method Append(x: bool)
      requires Valid()
      modifies this, key
      ensures Valid() && View() == Appended(old(View()), x)
    {
      hide Encrypt, SetBit, Mashed;
      if bitsi == BITS {
        Mash(key);
        bitsi := 0;
        bits := 0;
      }
      if x {
        bits := SetBit(bits, bitsi);
      }
      bitsi := bitsi + 1;
    }

    method Next() returns (n: Word)
      requires Valid()
      modifies this, key, block
      ensures Valid() && (View(), n) == Drawn(old(View()))
    {
      hide Encrypt, Mashed, Appended, Plus, Exhausted, Lane;
      var i := Lane(counter);
      if i == 0 {
        Mash(block);
      }
      if Exhausted(counter) {
        Append(true);
        counter := 0;
      } else {
        counter := Plus(counter, 1);
      }
      n := block[i];
    }

    /** Splits off a second generator; must not be mixed with drawing. */
    method Split() returns (right: Random)
      requires Valid() && counter == 0
      modifies this, key
      ensures Valid() && View() == Appended(old(View()), false)
      ensures right.Valid() && fresh(right) && fresh(right.key) && fresh(right.block)
      ensures right.View() == Appended(old(View()), true)
    {
      hide Appended;
      right := new Random.Copy(this);
      Append(false);
      right.Append(true);
    }
  }

  lemma NoRounds(k: Block, v: Block)
    ensures Rounds(k, v, 0) == v
  {
  }
}
