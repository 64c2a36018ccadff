/**
 Following a chain of spent outputs to its tip. The answers of the block explorer are read off an
 append-only ledger in which a transaction spends only outputs of earlier ones.
 */
module TipFollowing {

  type Txid = string

  type OutPoint = (Txid, int)

  datatype Output = Output(number: int, script: string)

  datatype Transaction = Transaction(id: Txid, spends: set<OutPoint>, outputs: seq<Output>)

  type Ledger = seq<Transaction>

  // ----- the ledger -----

  ghost predicate HasOutput(tx: Transaction, n: int) {
    exists o | o in tx.outputs :: o.number == n
  }

  /** Whether the transactions before position i hold the output. */
  ghost predicate CreatedBefore(l: Ledger, p: OutPoint, i: nat) {
    exists j | 0 <= j < i && j < |l| :: l[j].id == p.0 && HasOutput(l[j], p.1)
  }

  ghost predicate Valid(l: Ledger) {
    && (forall i, j | 0 <= i < j < |l| :: l[i].id != l[j].id)
    && (forall i, p | 0 <= i < |l| && p in l[i].spends :: CreatedBefore(l, p, i))
    && (forall i, j, p | 0 <= i < |l| && 0 <= j < |l| && p in l[i].spends && p in l[j].spends :: i == j)
  }

  /** A transaction with a new id that spends only outputs that exist and are not spent. */
  ghost predicate MayFollow(l: Ledger, tx: Transaction) {
    && (forall t | t in l :: t.id != tx.id)
    && (forall p | p in tx.spends :: exists t | t in l :: t.id == p.0 && exists o | o in t.outputs :: o.number == p.1)
    && (forall t, p | t in l && p in tx.spends :: p !in t.spends)
  }

  lemma NextMayFollow(l: Ledger, tx: Transaction)
    requires Valid(l + [tx])
    ensures Valid(l) && MayFollow(l, tx)
  {
    var m := l + [tx];
    assert m[|l|] == tx && forall i | 0 <= i < |l| :: m[i] == l[i];
    forall p | p in tx.spends
      ensures exists t | t in l :: t.id == p.0 && exists o | o in t.outputs :: o.number == p.1 {
      assert CreatedBefore(m, p, |l|);
      var j :| 0 <= j < |l| && m[j].id == p.0 && HasOutput(m[j], p.1);
      assert m[j] in l;
    }
  }

  lemma CreatedStays(l: Ledger, tx: Transaction, p: OutPoint, i: nat)
    requires CreatedBefore(l, p, i)
    ensures CreatedBefore(l + [tx], p, i)
  {
    var j :| 0 <= j < i && j < |l| && l[j].id == p.0 && HasOutput(l[j], p.1);
    assert (l + [tx])[j] == l[j];
  }

  lemma SpentIsCreated(l: Ledger, tx: Transaction, p: OutPoint)
    requires MayFollow(l, tx) && p in tx.spends
    ensures CreatedBefore(l + [tx], p, |l|)
  {
    var t :| t in l && t.id == p.0 && exists o | o in t.outputs :: o.number == p.1;
    var j :| 0 <= j < |l| && l[j] == t;
    assert (l + [tx])[j] == t && HasOutput(t, p.1);
  }

  lemma FollowingIsValid(l: Ledger, tx: Transaction)
    requires Valid(l) && MayFollow(l, tx)
    ensures Valid(l + [tx])
  {
    hide CreatedBefore;
    var m := l + [tx];
    assert m[|l|] == tx && forall i | 0 <= i < |l| :: m[i] == l[i] && m[i] in l;
    forall i, p | 0 <= i < |m| && p in m[i].spends ensures CreatedBefore(m, p, i) {
      if i < |l| {
        CreatedStays(l, tx, p, i);
      } else {
        SpentIsCreated(l, tx, p);
      }
    }
  }

  /** The ledgers that can be written: nothing, and what may follow. */
  lemma ValidExactlyWhen(l: Ledger, tx: Transaction)
    ensures Valid([])
    ensures Valid(l + [tx]) <==> Valid(l) && MayFollow(l, tx)
  {
    hide MayFollow;
    if Valid(l + [tx]) {
      NextMayFollow(l, tx);
    } else if Valid(l) && MayFollow(l, tx) {
      FollowingIsValid(l, tx);
    }
  }

  /** The position of a transaction, or the length of the ledger when it is unknown. */
  function Find(l: Ledger, id: Txid): (i: nat)
    ensures i <= |l|
    ensures i < |l| ==> l[i].id == id
    ensures forall j | 0 <= j < i :: l[j].id != id
  {
    if l == [] || l[0].id == id then 0 else 1 + Find(l[1..], id)
  }

  /** The position of the transaction that spends an output, or the length of the ledger. */
  function Spender(l: Ledger, p: OutPoint): (i: nat)
    ensures i <= |l|
    ensures i < |l| ==> p in l[i].spends
    ensures forall j | 0 <= j < i :: p !in l[j].spends
  {
    if l == [] || p in l[0].spends then 0 else 1 + Spender(l[1..], p)
  }

  // ----- the two queries -----

  datatype SpentAnswer = Failed | NotSpent | SpentBy(txid: Txid)

  /** The answer to is_tx_spent. */
  ghost function IsTxSpent(l: Ledger, txid: Txid, n: int): SpentAnswer {
    var i, s := Find(l, txid), Spender(l, (txid, n));
    if i == |l| || !HasOutput(l[i], n) then Failed
    else if s == |l| then NotSpent
    else SpentBy(l[s].id)
  }

  // ----- choosing the output to follow -----

  const OP_RETURN := "OP_RETURN"

  predicate Contains(s: string, part: string) {
    exists i | 0 <= i <= |s| :: part <= s[i..]
  }

  /** The search succeeds exactly for a part that stands anywhere in the text. */
  lemma ContainsExactlyWhen(s: string, part: string)
    ensures Contains(s, part) <==> exists pre, post :: s == pre + part + post
  {
    if Contains(s, part) {
      var i :| 0 <= i <= |s| && part <= s[i..];
      assert s == s[..i] + part + s[i + |part|..];
    }
    forall pre, post | s == pre + part + post ensures Contains(s, part) {
      assert part <= s[|pre|..];
    }
  }

  /** Nobody can spend an output whose script mentions OP_RETURN anywhere. */
  ghost predicate MentionsOpReturn(script: string) {
    exists pre, post :: script == pre + "OP_RETURN" + post
  }

  /** The numbers of the outputs whose script does not mention OP_RETURN. */
  function Payable(outputs: seq<Output>): set<int> {
    set o | o in outputs && !Contains(o.script, OP_RETURN) :: o.number
  }

  datatype Choice = TooFew | Follow(n: int)

  ghost predicate IsLeast(s: set<int>, m: int) {
    m in s && forall x | x in s :: m <= x
  }

  lemma {:induction false} LeastExists(s: set<int>)
    requires s != {}
    ensures exists m :: IsLeast(s, m)
    decreases |s|
  {
    var x := Member(s);
    var rest := s - {x};
    assert forall y | y in s :: y == x || y in rest;
    if rest == {} {
      assert IsLeast(s, x);
    } else {
      LeastExists(rest);
      var m :| IsLeast(rest, m);
      assert IsLeast(s, if x < m then x else m);
    }
  }

  lemma Member<T>(s: set<T>) returns (x: T)
    requires s != {}
    ensures x in s
  {
    x :| x in s;
  }

  /** The lowest-numbered output that is not an OP_RETURN. */
  ghost function FollowedOutput(outputs: seq<Output>): (c: Choice)
    ensures c.TooFew? <==> Payable(outputs) == {}
    ensures c.Follow? ==> IsLeast(Payable(outputs), c.n)
  {
    if Payable(outputs) == {} then TooFew
    else
      LeastExists(Payable(outputs));
      var m :| IsLeast(Payable(outputs), m);
      Follow(m)
  }

  /** The choice in terms of the outputs alone. */
  lemma FollowsLowestPayable(outputs: seq<Output>)
    ensures var c := FollowedOutput(outputs);
      && (c.TooFew? <==> forall o | o in outputs :: MentionsOpReturn(o.script))
      && (c.Follow? ==> exists o | o in outputs :: o.number == c.n && !MentionsOpReturn(o.script))
      && (c.Follow? ==> forall o | o in outputs && !MentionsOpReturn(o.script) :: c.n <= o.number)
  {
    hide Contains, FollowedOutput;
    forall o | o in outputs ensures MentionsOpReturn(o.script) <==> Contains(o.script, OP_RETURN) {
      ContainsExactlyWhen(o.script, OP_RETURN);
    }
    assert forall o | o in outputs && !Contains(o.script, OP_RETURN) :: o.number in Payable(outputs);
    var c := FollowedOutput(outputs);
    if c.Follow? {
      assert c.n in Payable(outputs);
    }
  }

  /** Collects the candidates in a set and takes its least member. */
  method DetermineNextUtxoIndex(outputs: seq<Output>) returns (c: Choice)
    ensures c == FollowedOutput(outputs)
    ensures c.TooFew? <==> forall o | o in outputs :: MentionsOpReturn(o.script)
    ensures c.Follow? ==> exists o | o in outputs :: o.number == c.n && !MentionsOpReturn(o.script)
    ensures c.Follow? ==> forall o | o in outputs && !MentionsOpReturn(o.script) :: c.n <= o.number
  {
    FollowsLowestPayable(outputs);
    hide MentionsOpReturn;
    var outputNums: set<int> := {};
    for i := 0 to |outputs|
      invariant outputNums == Payable(outputs[..i])
    {
      PayableStep(outputs, i);
      if !Contains(outputs[i].script, OP_RETURN) {
        outputNums := outputNums + {outputs[i].number};
      }
    }
    assert outputs[..|outputs|] == outputs;
    if outputNums == {} {
      return TooFew;
    }
    LeastExists(outputNums);
    var least :| least in outputNums && forall x | x in outputNums :: least <= x;
    assert IsLeast(outputNums, least);
    return Follow(least);
  }

  lemma PayableStep(outputs: seq<Output>, i: nat)
    requires i < |outputs|
    ensures Payable(outputs[..i + 1]) ==
      Payable(outputs[..i]) + if Contains(outputs[i].script, OP_RETURN) then {} else {outputs[i].number}
  {
  }

  /** The order in which a transaction's outputs are listed does not matter. */
  lemma ListingOrderIsIrrelevant(a: seq<Output>, b: seq<Output>)
    requires multiset(a) == multiset(b)
    ensures FollowedOutput(a) == FollowedOutput(b)
  {
    assert forall o :: o in a <==> o in multiset(a);
    assert forall o :: o in b <==> o in multiset(b);
    assert Payable(a) == Payable(b);
  }

  // ----- the walk -----

  datatype Resolution = Tip(txid: Txid) | NothingFound(id: Txid) | TooFewOutputs(child: Txid)

  /** In a valid ledger the spender of an output comes after its creator. */
  lemma SpenderIsLater(l: Ledger, txid: Txid, n: int)
    requires Valid(l) && IsTxSpent(l, txid, n).SpentBy?
    ensures Find(l, txid) < Find(l, IsTxSpent(l, txid, n).txid) < |l|
  {
  }

  ghost function GetLastUpdatedTxid(l: Ledger, txid: Txid, n: int): Resolution
    requires Valid(l)
    decreases |l| - Find(l, txid), 1
  {
    ExtractLastUpdatedTxid(l, IsTxSpent(l, txid, n), txid, n)
  }

  ghost function ExtractLastUpdatedTxid(l: Ledger, answer: SpentAnswer, txid: Txid, n: int): Resolution
    requires Valid(l) && answer == IsTxSpent(l, txid, n)
    decreases |l| - Find(l, txid), 0
  {
    match answer
    case Failed => NothingFound(txid)
    case NotSpent => Tip(txid)
    case SpentBy(next) =>
      SpenderIsLater(l, txid, n);
      match FollowedOutput(l[Find(l, next)].outputs)
      case TooFew => TooFewOutputs(next)
      case Follow(m) => GetLastUpdatedTxid(l, next, m)
  }

  /** One step from a spent output to the output followed next. */
  ghost predicate StepsTo(l: Ledger, p: OutPoint, q: OutPoint) {
    && IsTxSpent(l, p.0, p.1) == SpentBy(q.0)
    && Find(l, q.0) < |l|
    && FollowedOutput(l[Find(l, q.0)].outputs) == Follow(q.1)
  }

  ghost predicate IsChain(l: Ledger, chain: seq<OutPoint>) {
    chain != [] && forall k | 0 <= k < |chain| - 1 :: StepsTo(l, chain[k], chain[k + 1])
  }

  /** Where a walk stands at a point that has no next one. */
  ghost function Standing(l: Ledger, p: OutPoint): Resolution {
    match IsTxSpent(l, p.0, p.1)
    case Failed => NothingFound(p.0)
    case NotSpent => Tip(p.0)
    case SpentBy(next) => TooFewOutputs(next)
  }

  ghost predicate Ends(l: Ledger, p: OutPoint) {
    forall q :: !StepsTo(l, p, q)
  }

  /** A walk from p followed as far as it goes. */
  ghost predicate IsWalk(l: Ledger, p: OutPoint, chain: seq<OutPoint>) {
    IsChain(l, chain) && chain[0] == p && Ends(l, chain[|chain| - 1])
  }

  lemma StepKeepsResolution(l: Ledger, p: OutPoint, q: OutPoint)
    requires Valid(l) && StepsTo(l, p, q)
    ensures GetLastUpdatedTxid(l, p.0, p.1) == GetLastUpdatedTxid(l, q.0, q.1)
    ensures Find(l, p.0) < Find(l, q.0)
  {
  }

  lemma EndResolvesToStanding(l: Ledger, p: OutPoint)
    requires Valid(l) && Ends(l, p)
    ensures GetLastUpdatedTxid(l, p.0, p.1) == Standing(l, p)
  {
    var answer := IsTxSpent(l, p.0, p.1);
    if answer.SpentBy? {
      SpenderIsLater(l, p.0, p.1);
      var c := FollowedOutput(l[Find(l, answer.txid)].outputs);
      if c.Follow? {
        assert StepsTo(l, p, (answer.txid, c.n));
      }
    }
  }

  /** Every point of a chain resolves alike. */
  lemma {:induction false} ChainResolvesAlike(l: Ledger, chain: seq<OutPoint>, k: nat)
    requires Valid(l) && IsChain(l, chain) && k < |chain|
    ensures GetLastUpdatedTxid(l, chain[k].0, chain[k].1) == GetLastUpdatedTxid(l, chain[0].0, chain[0].1)
  {
    if k > 0 {
      ChainResolvesAlike(l, chain, k - 1);
      StepKeepsResolution(l, chain[k - 1], chain[k]);
    }
  }

  /** From every point there is exactly one walk. */
  lemma {:induction false} WalkExists(l: Ledger, p: OutPoint) returns (chain: seq<OutPoint>)
    requires Valid(l)
    ensures IsWalk(l, p, chain)
    decreases |l| - Find(l, p.0)
  {
    hide StepsTo, Valid, GetLastUpdatedTxid;
    if Ends(l, p) {
      chain := [p];
    } else {
      var q :| StepsTo(l, p, q);
      StepKeepsResolution(l, p, q);
      var rest := WalkExists(l, q);
      chain := [p] + rest;
      ChainGrows(l, p, rest);
    }
  }

  lemma ChainGrows(l: Ledger, p: OutPoint, rest: seq<OutPoint>)
    requires IsChain(l, rest) && StepsTo(l, p, rest[0])
    ensures IsChain(l, [p] + rest)
  {
  }

  lemma EndHasNoChain(l: Ledger, chain: seq<OutPoint>)
    requires IsChain(l, chain)
    ensures |chain| == 1 || !Ends(l, chain[0])
  {
    if |chain| > 1 {
      assert StepsTo(l, chain[0], chain[1]);
    }
  }

  lemma {:induction false} WalkIsUnique(l: Ledger, p: OutPoint, a: seq<OutPoint>, b: seq<OutPoint>)
    requires Valid(l) && IsWalk(l, p, a) && IsWalk(l, p, b)
    ensures a == b
    decreases |a|
  {
    EndHasNoChain(l, a);
    EndHasNoChain(l, b);
    if |a| > 1 {
      assert StepsTo(l, a[0], a[1]) && StepsTo(l, b[0], b[1]);
      assert a[1] == b[1];
      forall k | 0 <= k < |a| - 2 ensures StepsTo(l, a[1..][k], a[1..][k + 1]) {
        assert StepsTo(l, a[k + 1], a[k + 2]);
      }
      forall k | 0 <= k < |b| - 2 ensures StepsTo(l, b[1..][k], b[1..][k + 1]) {
        assert StepsTo(l, b[k + 1], b[k + 2]);
      }
      WalkIsUnique(l, a[1], a[1..], b[1..]);
      assert a == [a[0]] + a[1..] && b == [b[0]] + b[1..];
    }
  }

  ghost predicate LeadsToUnspent(l: Ledger, p: OutPoint, chain: seq<OutPoint>, tip: Txid) {
    && IsChain(l, chain) && chain[0] == p && chain[|chain| - 1].0 == tip
    && IsTxSpent(l, tip, chain[|chain| - 1].1) == NotSpent
  }

  /** The answer is a tip exactly when some chain leads to an unspent output of that transaction. */
  lemma ResolvesExactlyToTheTip(l: Ledger, p: OutPoint, tip: Txid)
    requires Valid(l)
    ensures GetLastUpdatedTxid(l, p.0, p.1) == Tip(tip) <==> exists chain :: LeadsToUnspent(l, p, chain, tip)
  {
    if GetLastUpdatedTxid(l, p.0, p.1) == Tip(tip) {
      var chain := WalkExists(l, p);
      ChainResolvesAlike(l, chain, |chain| - 1);
      EndResolvesToStanding(l, chain[|chain| - 1]);
      assert LeadsToUnspent(l, p, chain, tip);
    }
    if chain :| LeadsToUnspent(l, p, chain, tip) {
      ChainResolvesAlike(l, chain, |chain| - 1);
      assert Ends(l, chain[|chain| - 1]);
      EndResolvesToStanding(l, chain[|chain| - 1]);
    }
  }

  /** Resolution finds nothing exactly when the queried output itself is unknown, and then names its
      transaction. */
  lemma {:induction false} NothingFoundExactlyWhenUnknown(l: Ledger, p: OutPoint, id: Txid)
    requires Valid(l)
    ensures GetLastUpdatedTxid(l, p.0, p.1) == NothingFound(id) <==> id == p.0 && !CreatedBefore(l, p, |l|)
  {
    KnownIsAnswered(l, p);
    var chain := WalkExists(l, p);
    var last := |chain| - 1;
    ChainResolvesAlike(l, chain, last);
    EndResolvesToStanding(l, chain[last]);
    if last > 0 {
      assert StepsTo(l, chain[0], chain[1]);
      assert StepsTo(l, chain[last - 1], chain[last]);
      FollowedIsKnown(l, chain[last]);
    }
  }

  /** A query fails exactly when no transaction holds the output. */
  lemma KnownIsAnswered(l: Ledger, p: OutPoint)
    requires Valid(l)
    ensures IsTxSpent(l, p.0, p.1).Failed? <==> !CreatedBefore(l, p, |l|)
  {
  }

  lemma FollowedIsKnown(l: Ledger, p: OutPoint)
    requires Find(l, p.0) < |l| && FollowedOutput(l[Find(l, p.0)].outputs) == Follow(p.1)
    ensures !IsTxSpent(l, p.0, p.1).Failed?
  {
    assert p.1 in Payable(l[Find(l, p.0)].outputs);
  }

  // ----- appending transactions -----

  lemma FindInPrefix(l: Ledger, more: Ledger, id: Txid)
    ensures Find(l + more, id) == if Find(l, id) < |l| then Find(l, id) else |l| + Find(more, id)
  {
    var i := Find(l + more, id);
    assert forall j | 0 <= j < |l| :: (l + more)[j] == l[j];
    assert forall j | 0 <= j < |more| :: (l + more)[|l| + j] == more[j];
    if Find(l, id) == |l| {
      assert |l| <= i < |l| + |more| ==> more[i - |l|].id == id;
      assert Find(more, id) < |more| ==> (l + more)[|l| + Find(more, id)].id == id;
    }
  }

  lemma SpenderInPrefix(l: Ledger, more: Ledger, p: OutPoint)
    ensures Spender(l + more, p) == if Spender(l, p) < |l| then Spender(l, p) else |l| + Spender(more, p)
  {
    var i := Spender(l + more, p);
    assert forall j | 0 <= j < |l| :: (l + more)[j] == l[j];
    assert forall j | 0 <= j < |more| :: (l + more)[|l| + j] == more[j];
    if Spender(l, p) == |l| {
      assert |l| <= i < |l| + |more| ==> p in more[i - |l|].spends;
      assert Spender(more, p) < |more| ==> p in (l + more)[|l| + Spender(more, p)].spends;
    }
  }

  lemma PrefixIsValid(l: Ledger, more: Ledger)
    requires Valid(l + more)
    ensures Valid(l)
  {
    var whole := l + more;
    assert forall j | 0 <= j < |l| :: whole[j] == l[j];
    forall i, p | 0 <= i < |l| && p in l[i].spends ensures CreatedBefore(l, p, i) {
      assert p in whole[i].spends;
      assert CreatedBefore(whole, p, i);
      var j :| 0 <= j < i && whole[j].id == p.0 && HasOutput(whole[j], p.1);
      assert l[j].id == p.0;
    }
    forall i, j | 0 <= i < j < |l| ensures l[i].id != l[j].id {
      assert whole[i].id != whole[j].id;
    }
    forall i, j, p | 0 <= i < |l| && 0 <= j < |l| && p in l[i].spends && p in l[j].spends ensures i == j {
      assert p in whole[i].spends && p in whole[j].spends;
    }
  }

  lemma StepStays(l: Ledger, more: Ledger, p: OutPoint, q: OutPoint)
    requires StepsTo(l, p, q)
    ensures StepsTo(l + more, p, q)
  {
    FindInPrefix(l, more, p.0);
    FindInPrefix(l, more, q.0);
    SpenderInPrefix(l, more, p);
  }

  lemma ChainStays(l: Ledger, more: Ledger, chain: seq<OutPoint>)
    requires IsChain(l, chain)
    ensures IsChain(l + more, chain)
  {
    forall k | 0 <= k < |chain| - 1 ensures StepsTo(l + more, chain[k], chain[k + 1]) {
      StepStays(l, more, chain[k], chain[k + 1]);
    }
  }

  /** What appending a transaction does to the point p at which a walk stands. */
  ghost function StandingAfter(l: Ledger, p: OutPoint, tx: Transaction): Resolution {
    if IsTxSpent(l, p.0, p.1).NotSpent? && p in tx.spends then
      if Payable(tx.outputs) == {} then TooFewOutputs(tx.id) else Tip(tx.id)
    else if p.0 == tx.id && HasOutput(tx, p.1) then Tip(tx.id)
    else Standing(l, p)
  }

  /** Appending a transaction leaves every answer alone except in two cases. A walk whose last output the
      transaction spends moves on to it, or fails there when all its outputs are OP_RETURNs. And a query
      for an output of the transaction itself, which failed before, now ends there. */
  lemma AppendMovesTip(l: Ledger, tx: Transaction, p: OutPoint, walk: seq<OutPoint>)
    requires Valid(l + [tx]) && IsWalk(l, p, walk)
    ensures GetLastUpdatedTxid(l + [tx], p.0, p.1) == StandingAfter(l, walk[|walk| - 1], tx)
  {
    hide Valid, GetLastUpdatedTxid, CreatedBefore;
    var after, end := l + [tx], walk[|walk| - 1];
    PrefixIsValid(l, [tx]);
    ChainStays(l, [tx], walk);
    ChainResolvesAlike(after, walk, |walk| - 1);
    FindInPrefix(l, [tx], end.0);
    SpenderInPrefix(l, [tx], end);
    var answer := IsTxSpent(l, end.0, end.1);
    NewestIsUnspent(l, tx, end);
    match answer
    case Failed =>
      assert Ends(after, end);
      EndResolvesToStanding(after, end);
    case SpentBy(_) => TooFewStays(l, [tx], end);
    case NotSpent =>
      if end in tx.spends {
        SpentByTheNewest(l, tx, end);
      } else {
        assert Ends(after, end);
        EndResolvesToStanding(after, end);
      }
  }

  /** A walk ends at a spent output only where the spender has nothing to follow. */
  lemma FollowedIsTooFew(l: Ledger, p: OutPoint)
    requires Valid(l) && Ends(l, p) && IsTxSpent(l, p.0, p.1).SpentBy?
    ensures Find(l, IsTxSpent(l, p.0, p.1).txid) < |l|
    ensures FollowedOutput(l[Find(l, IsTxSpent(l, p.0, p.1).txid)].outputs).TooFew?
  {
    var next := IsTxSpent(l, p.0, p.1).txid;
    SpenderIsLater(l, p.0, p.1);
    var c := FollowedOutput(l[Find(l, next)].outputs);
    if c.Follow? {
      assert StepsTo(l, p, (next, c.n));
    }
  }

  lemma TooFewStays(l: Ledger, more: Ledger, p: OutPoint)
    requires Valid(l) && Valid(l + more) && Ends(l, p) && IsTxSpent(l, p.0, p.1).SpentBy?
    ensures GetLastUpdatedTxid(l + more, p.0, p.1) == Standing(l, p)
  {
    hide Valid;
    FollowedIsTooFew(l, p);
    FindInPrefix(l, more, p.0);
    FindInPrefix(l, more, IsTxSpent(l, p.0, p.1).txid);
    SpenderInPrefix(l, more, p);
    assert Ends(l + more, p);
    EndResolvesToStanding(l + more, p);
  }

  /** Nothing spends an output of the newest transaction, and no earlier one has its id. */
  lemma NewestIsUnspent(l: Ledger, tx: Transaction, p: OutPoint)
    requires Valid(l + [tx])
    ensures Find(l, tx.id) == |l|
    ensures p.0 == tx.id ==> Spender(l + [tx], p) == |l| + 1
  {
    var after := l + [tx];
    assert after[|l|] == tx;
    assert forall j | 0 <= j < |l| :: after[j] == l[j] && after[j].id != tx.id;
    var s := Spender(after, p);
    assert s < |after| ==> CreatedBefore(after, p, s);
  }

  /** The newest transaction does not spend its own outputs, so a walk that reaches it stays there. */
  lemma SpentByTheNewest(l: Ledger, tx: Transaction, p: OutPoint)
    requires Valid(l + [tx]) && IsTxSpent(l, p.0, p.1).NotSpent? && p in tx.spends
    ensures GetLastUpdatedTxid(l + [tx], p.0, p.1) ==
      if Payable(tx.outputs) == {} then TooFewOutputs(tx.id) else Tip(tx.id)
  {
    var after := l + [tx];
    FindInPrefix(l, [tx], p.0);
    FindInPrefix(l, [tx], tx.id);
    SpenderInPrefix(l, [tx], p);
    NewestIsUnspent(l, tx, p);
    assert after[|l|] == tx;
    assert IsTxSpent(after, p.0, p.1) == SpentBy(tx.id);
    var c := FollowedOutput(tx.outputs);
    if c.Follow? {
      var q := (tx.id, c.n);
      StepKeepsResolution(after, p, q);
      FollowedIsKnown(after, q);
      NewestIsUnspent(l, tx, q);
      assert Ends(after, q);
      EndResolvesToStanding(after, q);
    }
  }

  /** Over any run of appended transactions a tip only moves to later transactions, resolving again from
      where the old walk stood gives the new answer, and a walk that has failed for want of outputs stays
      failed. */
  lemma TipOnlyMovesForward(l: Ledger, more: Ledger, p: OutPoint, walk: seq<OutPoint>)
    requires Valid(l + more) && Valid(l) && IsWalk(l, p, walk)
    ensures forall k | 0 <= k < |walk| ::
      GetLastUpdatedTxid(l + more, walk[k].0, walk[k].1) == GetLastUpdatedTxid(l + more, p.0, p.1)
    ensures GetLastUpdatedTxid(l, p.0, p.1).Tip? && GetLastUpdatedTxid(l + more, p.0, p.1).Tip? ==>
      Find(l + more, GetLastUpdatedTxid(l, p.0, p.1).txid)
        <= Find(l + more, GetLastUpdatedTxid(l + more, p.0, p.1).txid)
    ensures GetLastUpdatedTxid(l, p.0, p.1).TooFewOutputs? ==>
      GetLastUpdatedTxid(l + more, p.0, p.1) == GetLastUpdatedTxid(l, p.0, p.1)
  {
    var end := walk[|walk| - 1];
    ChainStays(l, more, walk);
    forall k | 0 <= k < |walk|
      ensures GetLastUpdatedTxid(l + more, walk[k].0, walk[k].1) == GetLastUpdatedTxid(l + more, p.0, p.1) {
      ChainResolvesAlike(l + more, walk, k);
    }
    ChainResolvesAlike(l, walk, |walk| - 1);
    EndResolvesToStanding(l, end);
    var answer := IsTxSpent(l, end.0, end.1);
    match answer
    case Failed =>
    case NotSpent => TipIsNotBefore(l + more, end);
    case SpentBy(_) => TooFewStays(l, more, end);
  }

  lemma {:induction false} TipIsNotBefore(l: Ledger, p: OutPoint)
    requires Valid(l)
    ensures GetLastUpdatedTxid(l, p.0, p.1).Tip? ==> Find(l, p.0) <= Find(l, GetLastUpdatedTxid(l, p.0, p.1).txid)
    decreases |l| - Find(l, p.0)
  {
    if Ends(l, p) {
      EndResolvesToStanding(l, p);
    } else {
      var q :| StepsTo(l, p, q);
      StepKeepsResolution(l, p, q);
      TipIsNotBefore(l, q);
    }
  }
}
