/** Over a whole chain, every transaction takes effect in exactly one block. */
module ExactlyOnce {
  import opened Chain
  import opened ScheduledSpec

  /** What of a block matters to timing: the hashes it lists, whether it has scheduled transactions, and the
      hashes that only the next block lists although they are results of its scheduled transactions. */
  datatype Summary = Summary(listed: set<string>, scheduled: bool, ahead: set<string>)

  ghost predicate IsRun(run: seq<Summary>) {
    forall k :: 0 <= k < |run| - 1 ==>
      run[k].ahead <= run[k + 1].listed && (run[k].ahead != {} ==> run[k].scheduled)
  }

  ghost function EffectiveAt(run: seq<Summary>, k: int): set<string>
    requires 0 < k < |run| - 1
  {
    (if run[k - 1].scheduled then run[k].listed - run[k - 1].listed - run[k - 1].ahead else run[k].listed)
    + run[k].ahead
  }

  ghost predicate EffectiveIn(run: seq<Summary>, k: int, h: string) {
    0 < k < |run| - 1 && h in EffectiveAt(run, k)
  }

  ghost predicate ListedIn(run: seq<Summary>, k: int, h: string) {
    0 <= k < |run| && h in run[k].listed
  }

  ghost predicate ListedExactlyIn(run: seq<Summary>, h: string, at: set<int>) {
    forall k :: ListedIn(run, k, h) <==> k in at
  }

  ghost predicate ExactlyOneEffective(run: seq<Summary>, h: string) {
    exists k :: EffectiveIn(run, k, h) && forall j :: EffectiveIn(run, j, h) ==> j == k
  }

  // ---------------------------------------------------------------- one hash

  /** A block that neither lists a hash nor is followed by one that does, does not make it effective. */
  lemma {:induction false} EffectiveOnlyNear(run: seq<Summary>, h: string)
    requires IsRun(run)
    ensures forall j :: EffectiveIn(run, j, h) ==> ListedIn(run, j, h) || ListedIn(run, j + 1, h)
  {
    forall j | EffectiveIn(run, j, h) ensures ListedIn(run, j, h) || ListedIn(run, j + 1, h) {
      assert run[j].ahead <= run[j + 1].listed;
    }
  }

  /** A hash listed in one block only takes effect in exactly one block:
      the one before, when it is the result of a scheduled transaction there, or its own. */
  lemma {:induction false} ListedOnceEffectiveOnce(run: seq<Summary>, k: int, h: string)
    requires IsRun(run)
    requires 2 <= k < |run| - 1
    requires ListedExactlyIn(run, h, {k})
    ensures ExactlyOneEffective(run, h)
    ensures EffectiveIn(run, if h in run[k - 1].ahead then k - 1 else k, h)
  {
    var at := if h in run[k - 1].ahead then k - 1 else k;
    EffectiveOnlyNear(run, h);
    assert !ListedIn(run, k - 1, h) && ListedIn(run, k, h) && !ListedIn(run, k + 1, h);
    assert h !in run[k - 2].ahead && h !in run[k].ahead;
    assert EffectiveIn(run, at, h);
    forall j | EffectiveIn(run, j, h) ensures j == at {
      assert ListedIn(run, j, h) || ListedIn(run, j + 1, h);
    }
  }

  /** A hash listed in two consecutive blocks takes effect in exactly one block if and only if the first of
      them has scheduled transactions and it is not taken ahead by both the block before and the first. */
  lemma {:induction false} ListedTwiceEffectiveOnce(run: seq<Summary>, k: int, h: string)
    requires IsRun(run)
    requires 2 <= k < |run| - 2
    requires ListedExactlyIn(run, h, {k, k + 1})
    ensures ExactlyOneEffective(run, h) <==>
              run[k].scheduled && !(h in run[k - 1].ahead && h in run[k].ahead)
    ensures run[k].scheduled && h !in run[k - 1].ahead ==> EffectiveIn(run, k, h)
  {
    hide EffectiveIn, ListedIn;
    EffectiveOnlyNear(run, h);
    forall j | EffectiveIn(run, j, h) ensures k - 1 <= j <= k + 1 {
      assert ListedIn(run, j, h) || ListedIn(run, j + 1, h);
    }
    OneOfThree(run, h, k);
    TwiceAround(run, k, h);
  }

  lemma {:induction false} TwiceAround(run: seq<Summary>, k: int, h: string)
    requires IsRun(run)
    requires 2 <= k < |run| - 2
    requires ListedExactlyIn(run, h, {k, k + 1})
    ensures EffectiveIn(run, k - 1, h) <==> h in run[k - 1].ahead
    ensures EffectiveIn(run, k, h) <==> h in run[k].ahead || h !in run[k - 1].ahead
    ensures EffectiveIn(run, k + 1, h) <==> !run[k].scheduled
    ensures h in run[k].ahead ==> run[k].scheduled
  {
    assert !ListedIn(run, k - 1, h) && ListedIn(run, k, h) && ListedIn(run, k + 1, h) && !ListedIn(run, k + 2, h);
    assert h !in run[k - 2].ahead && h !in run[k + 1].ahead;
  }

  lemma {:induction false} OneOfThree(run: seq<Summary>, h: string, k: int)
    requires forall j :: EffectiveIn(run, j, h) ==> k - 1 <= j <= k + 1
    ensures ExactlyOneEffective(run, h) <==>
              (if EffectiveIn(run, k - 1, h) then 1 else 0) + (if EffectiveIn(run, k, h) then 1 else 0)
              + (if EffectiveIn(run, k + 1, h) then 1 else 0) == 1
  {
    hide EffectiveIn;
  }

  /** No hash is lost, wherever else it is listed: it takes effect in the block that lists it first, or in the
      one before. */
  lemma {:induction false} NothingIsLost(run: seq<Summary>, k: int, h: string)
    requires IsRun(run)
    requires 2 <= k < |run| - 1
    requires ListedIn(run, k, h) && !ListedIn(run, k - 1, h)
    ensures EffectiveIn(run, k, h) || EffectiveIn(run, k - 1, h)
  {
    assert h !in run[k - 1].listed;
    if h in run[k - 1].ahead {
      assert h in EffectiveAt(run, k - 1);
    } else {
      assert h in EffectiveAt(run, k);
    }
  }

  /** How often a hash listed in two consecutive blocks takes effect: once or twice. */
  lemma {:induction false} ListedTwiceEffectiveCount(run: seq<Summary>, k: int, h: string)
    requires IsRun(run)
    requires 2 <= k < |run| - 2
    requires ListedExactlyIn(run, h, {k, k + 1})
    ensures EffectiveUpTo(run, |run| - 1)[h]
         == if run[k].scheduled && !(h in run[k - 1].ahead && h in run[k].ahead) then 1 else 2
  {
    hide EffectiveIn, ListedIn, EffectiveUpTo;
    var at := set j | j in {k - 1, k, k + 1} && EffectiveIn(run, j, h);
    EffectiveOnlyNear(run, h);
    forall j | EffectiveIn(run, j, h) ensures j in at {
      assert ListedIn(run, j, h) || ListedIn(run, j + 1, h);
    }
    TwiceAround(run, k, h);
    CountsAt(run, |run| - 1, h, at);
    assert Before(at, |run| - 1) == at;
    assert at == if !run[k].scheduled then (if h in run[k - 1].ahead then {k - 1, k + 1} else {k, k + 1})
                 else if h !in run[k - 1].ahead then {k}
                 else if h in run[k].ahead then {k - 1, k} else {k - 1};
  }

  // ---------------------------------------------------------------- the run as a partition

  /** Listed in one block, or in two consecutive ones of which the first has scheduled transactions, and not taken
      ahead by both the first and the block before. */
  ghost predicate ListedProperly(run: seq<Summary>, k: int, h: string)
    requires 0 < k < |run|
  {
    || ListedExactlyIn(run, h, {k})
    || (ListedExactlyIn(run, h, {k, k + 1}) && run[k].scheduled && !(h in run[k - 1].ahead && h in run[k].ahead))
  }

  /** Listed properly, and away from the ends of the run. */
  ghost predicate Inner(run: seq<Summary>, h: string) {
    exists k :: 2 <= k < |run| - 2 && ListedProperly(run, k, h)
  }

  lemma {:induction false} InnerEffectiveOnce(run: seq<Summary>, h: string)
    requires IsRun(run)
    requires Inner(run, h)
    ensures ExactlyOneEffective(run, h)
  {
    var k :| 2 <= k < |run| - 2 && ListedProperly(run, k, h);
    if ListedExactlyIn(run, h, {k}) {
      ListedOnceEffectiveOnce(run, k, h);
    } else {
      ListedTwiceEffectiveOnce(run, k, h);
    }
  }

  /** What blocks 1 to n - 1 make effective, put together with repetitions. */
  ghost function EffectiveUpTo(run: seq<Summary>, n: int): multiset<string>
    requires 1 <= n < |run|
  {
    if n == 1 then multiset{} else EffectiveUpTo(run, n - 1) + multiset(EffectiveAt(run, n - 1))
  }

  ghost function ListedUpTo(run: seq<Summary>, n: int): set<string>
    requires 0 <= n <= |run|
  {
    if n == 0 then {} else ListedUpTo(run, n - 1) + run[n - 1].listed
  }

  /** Whatever else a run lists: a hash listed properly and away from the ends is served once, and a hash never
      listed is not served. Where all listed hashes are of the first kind, what is served is what is listed. */
  lemma {:induction false} RunServesEachHashOnce(run: seq<Summary>)
    requires IsRun(run)
    requires |run| >= 2
    ensures forall h :: Inner(run, h) ==> EffectiveUpTo(run, |run| - 1)[h] == 1
    ensures forall h :: h !in ListedUpTo(run, |run|) ==> EffectiveUpTo(run, |run| - 1)[h] == 0
    ensures (forall h :: h in ListedUpTo(run, |run|) ==> Inner(run, h)) ==>
              EffectiveUpTo(run, |run| - 1) == multiset(ListedUpTo(run, |run|))
  {
    hide EffectiveUpTo, ListedUpTo, Inner;
    forall h
      ensures Inner(run, h) ==> EffectiveUpTo(run, |run| - 1)[h] == 1
      ensures h !in ListedUpTo(run, |run|) ==> EffectiveUpTo(run, |run| - 1)[h] == 0
    {
      RunServesHash(run, h);
    }
  }

  lemma {:induction false} RunServesHash(run: seq<Summary>, h: string)
    requires IsRun(run)
    requires |run| >= 2
    ensures Inner(run, h) ==> EffectiveUpTo(run, |run| - 1)[h] == 1
    ensures h !in ListedUpTo(run, |run|) ==> EffectiveUpTo(run, |run| - 1)[h] == 0
  {
    hide EffectiveUpTo, ListedUpTo, Inner, EffectiveIn;
    if Inner(run, h) {
      InnerEffectiveOnce(run, h);
      CountsOnce(run, h);
    }
    if h !in ListedUpTo(run, |run|) {
      ListedUpToMembers(run, |run|, h);
      EffectiveOnlyNear(run, h);
      forall j ensures !EffectiveIn(run, j, h) {
        assert !ListedIn(run, j, h) && !ListedIn(run, j + 1, h);
      }
      CountsAt(run, |run| - 1, h, {});
    }
  }

  lemma {:induction false} CountsOnce(run: seq<Summary>, h: string)
    requires ExactlyOneEffective(run, h)
    ensures |run| >= 2 && EffectiveUpTo(run, |run| - 1)[h] == 1
  {
    var k :| EffectiveIn(run, k, h) && forall j :: EffectiveIn(run, j, h) ==> j == k;
    CountsAt(run, |run| - 1, h, {k});
    assert Before({k}, |run| - 1) == {k};
  }

  lemma {:induction false} ListedUpToMembers(run: seq<Summary>, n: int, h: string)
    requires 0 <= n <= |run|
    ensures h in ListedUpTo(run, n) <==> exists k :: k < n && ListedIn(run, k, h)
  {
    if n > 0 {
      ListedUpToMembers(run, n - 1, h);
      assert h in run[n - 1].listed <==> ListedIn(run, n - 1, h);
    }
  }

  function Before(at: set<int>, n: int): set<int> {
    set j | j in at && j < n
  }

  lemma {:induction false} CountsAt(run: seq<Summary>, n: int, h: string, at: set<int>)
    requires 1 <= n < |run|
    requires forall j :: EffectiveIn(run, j, h) <==> j in at
    ensures EffectiveUpTo(run, n)[h] == |Before(at, n)|
  {
    var before := Before(at, n);
    if n == 1 {
      forall j | j in at ensures j >= n {
        assert EffectiveIn(run, j, h);
      }
      assert before == {};
    } else {
      CountsAt(run, n - 1, h, at);
      var smaller := Before(at, n - 1);
      assert EffectiveIn(run, n - 1, h) <==> n - 1 in at;
      assert before == if n - 1 in at then smaller + {n - 1} else smaller;
    }
  }

  // ---------------------------------------------------------------- chains of blocks

  ghost function SummaryAt(chain: seq<Block>, k: nat): Summary
    requires k < |chain|
  {
    Summary(
      Hashes(AllTransactions(chain[k])),
      HasScheduled(chain[k]),
      if k + 1 < |chain| then ExecutedAhead(chain[k].shard, chain[k], chain[k + 1]) else {})
  }

  ghost function SummaryOf(chain: seq<Block>): (run: seq<Summary>)
    ensures |run| == |chain|
    ensures forall k :: 0 <= k < |chain| ==> run[k] == SummaryAt(chain, k)
  {
    seq(|chain|, k requires 0 <= k < |chain| => SummaryAt(chain, k))
  }

  /** The summaries of a chain of one shard are a run, and block by block they give the effective hashes:
      what one block takes ahead is exactly what the next leaves out. */
  lemma {:induction false} SummaryIsFaithful(chain: seq<Block>)
    requires forall k :: 0 <= k < |chain| ==> chain[k].shard == chain[0].shard
    ensures IsRun(SummaryOf(chain))
    ensures forall k :: 0 < k < |chain| - 1 ==>
              EffectiveAt(SummaryOf(chain), k)
              == EffectiveHashes(chain[k].shard, chain[k - 1], chain[k], chain[k + 1])
  {
    hide SummaryOf;
    var run := SummaryOf(chain);
    forall k | 0 <= k < |chain| - 1
      ensures run[k].ahead <= run[k + 1].listed && (run[k].ahead != {} ==> run[k].scheduled)
    {
      hide ExecutedAhead, AllTransactions, HasScheduled, Hashes;
      AheadIsListedNext(chain[k].shard, chain[k], chain[k + 1]);
      assert run[k] == SummaryAt(chain, k) && run[k + 1] == SummaryAt(chain, k + 1);
    }
    forall k | 0 < k < |chain| - 1
      ensures EffectiveAt(run, k) == EffectiveHashes(chain[k].shard, chain[k - 1], chain[k], chain[k + 1])
    {
      hide ExecutedAhead, AllTransactions, HasScheduled, Hashes;
      assert chain[k - 1].shard == chain[k].shard;
      assert run[k - 1] == SummaryAt(chain, k - 1) && run[k] == SummaryAt(chain, k);
    }
  }

  /** Nothing is lost and nothing is served twice: put together with repetitions, what the blocks of a chain of one
      shard make effective holds each hash once that is listed properly and away from the ends of the chain, and no
      hash that is not listed. Where all hashes are listed so, it holds exactly the listed ones, each once. */
  lemma {:induction false} ChainServesEachHashOnce(chain: seq<Block>)
    requires |chain| >= 2
    requires forall k :: 0 <= k < |chain| ==> chain[k].shard == chain[0].shard
    ensures forall h :: Inner(SummaryOf(chain), h) ==> ChainEffectiveUpTo(chain, |chain| - 1)[h] == 1
    ensures forall h :: h !in ListedUpTo(SummaryOf(chain), |chain|) ==> ChainEffectiveUpTo(chain, |chain| - 1)[h] == 0
    ensures (forall h :: h in ListedUpTo(SummaryOf(chain), |chain|) ==> Inner(SummaryOf(chain), h)) ==>
              ChainEffectiveUpTo(chain, |chain| - 1) == multiset(ListedUpTo(SummaryOf(chain), |chain|))
  {
    hide *;
    SummaryIsFaithful(chain);
    RunServesEachHashOnce(SummaryOf(chain));
    SameUpTo(chain, |chain| - 1);
  }

  ghost function ChainEffectiveUpTo(chain: seq<Block>, n: int): multiset<string>
    requires 1 <= n < |chain|
  {
    if n == 1 then multiset{}
    else
      ChainEffectiveUpTo(chain, n - 1)
      + multiset(EffectiveHashes(chain[n - 1].shard, chain[n - 2], chain[n - 1], chain[n]))
  }

  lemma {:induction false} SameUpTo(chain: seq<Block>, n: int)
    requires 1 <= n < |chain|
    requires forall k :: 0 <= k < |chain| ==> chain[k].shard == chain[0].shard
    ensures ChainEffectiveUpTo(chain, n) == EffectiveUpTo(SummaryOf(chain), n)
  {
    hide SummaryOf, EffectiveHashes, EffectiveAt;
    if n > 1 {
      SameUpTo(chain, n - 1);
      SummaryIsFaithful(chain);
      assert EffectiveAt(SummaryOf(chain), n - 1)
          == EffectiveHashes(chain[n - 1].shard, chain[n - 1 - 1], chain[n - 1], chain[n - 1 + 1]);
    }
  }

  /** On chains: a hash takes effect in the block that lists it first, or in the one before. */
  lemma {:induction false} ChainLosesNothing(chain: seq<Block>, k: int, h: string)
    requires forall j :: 0 <= j < |chain| ==> chain[j].shard == chain[0].shard
    requires 2 <= k < |chain| - 1
    requires h in Hashes(AllTransactions(chain[k])) && h !in Hashes(AllTransactions(chain[k - 1]))
    ensures h in EffectiveHashes(chain[k].shard, chain[k - 1], chain[k], chain[k + 1])
            || h in EffectiveHashes(chain[k - 1].shard, chain[k - 2], chain[k - 1], chain[k])
  {
    hide EffectiveHashes, Hashes, AllTransactions, ExecutedAhead, HasScheduled, SummaryOf;
    var run := SummaryOf(chain);
    SummaryIsFaithful(chain);
    assert run[k] == SummaryAt(chain, k) && run[k - 1] == SummaryAt(chain, k - 1);
    NothingIsLost(run, k, h);
    assert chain[k - 1 - 1] == chain[k - 2] && chain[k - 1 + 1] == chain[k];
  }

  lemma {:induction false} AheadIsListedNext(self: nat, block: Block, next: Block)
    ensures ExecutedAhead(self, block, next) <= Hashes(AllTransactions(next))
    ensures ExecutedAhead(self, block, next) != {} ==> HasScheduled(block)
  {
    var roots, items := ScheduledTransactions(block), AllTransactions(next);
    forall h | h in ExecutedAhead(self, block, next)
      ensures h in Hashes(items) && roots != []
    {
      var x :| x in items && IsImmediateResult(self, roots, items, x) && x.hash == h;
    }
  }

  // ---------------------------------------------------------------- chains on which a hash takes effect twice

  /** A block with one miniblock. */
  function BlockWith(shard: nat, processingType: string, txs: seq<Tx>): Block {
    Block(0, 0, 0, shard, 0, "", "", "", "", 0, [Miniblock("", "", processingType, "", 0, 0, txs, [])])
  }

  lemma {:induction false} InBlockWith(shard: nat, processingType: string, txs: seq<Tx>)
    ensures AllTransactions(BlockWith(shard, processingType, txs)) == txs
    ensures ScheduledTransactions(BlockWith(shard, processingType, txs))
         == if processingType == PROCESSING_SCHEDULED then txs else []
  {
    var one := [Miniblock("", "", processingType, "", 0, 0, txs, [])];
    assert one[..|one| - 1] == [];
    assert TransactionsOf([]) == ScheduledOf([]) == [];
    assert TransactionsOf(one) == TransactionsOf(one[..|one| - 1]) + txs;
    assert [] + txs == txs;
  }

  /** How often a hash listed in the third and fourth of five blocks takes effect. */
  lemma {:induction false} EffectiveCountInFive(shard: nat, a: Block, b: Block, c: Block, d: Block, e: Block, h: string)
    requires a.shard == b.shard == c.shard == d.shard == e.shard == shard
    requires h !in Hashes(AllTransactions(a)) && h !in Hashes(AllTransactions(b)) && h !in Hashes(AllTransactions(e))
    requires h in Hashes(AllTransactions(c)) && h in Hashes(AllTransactions(d))
    ensures ChainEffectiveUpTo([a, b, c, d, e], 4)[h]
         == if HasScheduled(c) && !(h in ExecutedAhead(shard, b, c) && h in ExecutedAhead(shard, c, d)) then 1 else 2
  {
    hide Hashes, AllTransactions, HasScheduled, ExecutedAhead, ChainEffectiveUpTo, EffectiveUpTo, SummaryOf,
         EffectiveAt, EffectiveHashes;
    var chain := [a, b, c, d, e];
    var run := SummaryOf(chain);
    SummaryIsFaithful(chain);
    assert run[1] == SummaryAt(chain, 1) && run[2] == SummaryAt(chain, 2);
    ListedAs(chain, h, {2, 3});
    ListedTwiceEffectiveCount(run, 2, h);
    SameUpTo(chain, 4);
  }

  /** Listed in two blocks of which the first has nothing scheduled: effective in both. */
  lemma {:induction false} RepeatedUnscheduledTakesEffectTwice(shard: nat, t: Tx) returns (chain: seq<Block>)
    ensures |chain| == 5 && forall k :: 0 <= k < |chain| ==> chain[k].shard == shard
    ensures forall k :: 0 < k < 4 ==> Searchable(shard, chain[k - 1], chain[k], chain[k + 1])
    ensures ChainEffectiveUpTo(chain, 4)[t.hash] == 2
  {
    hide AllTransactions, ScheduledTransactions, ChainEffectiveUpTo, Hashes, ExecutedAhead;
    var none, listing := BlockWith(shard, "", []), BlockWith(shard, "", [t]);
    chain := [none, none, listing, listing, none];
    InBlockWith(shard, "", []);
    InBlockWith(shard, "", [t]);
    HashesOfOne(t);
    EffectiveCountInFive(shard, none, none, listing, listing, none, t.hash);
  }

  lemma {:induction false} HashesOfOne(t: Tx)
    ensures Hashes([t]) == {t.hash} && Hashes([]) == {}
  {
    assert t in [t];
  }

  lemma {:induction false} HashesOfTwo(r: Tx, t: Tx)
    ensures Hashes([r, t]) == {r.hash, t.hash}
    ensures r in [r] && r in [r, t] && t in [r, t] && t in [t]
  {
    assert [r, t][0] == r && [r, t][1] == t;
  }

  lemma {:induction false} ListedAs(chain: seq<Block>, h: string, at: set<int>)
    requires forall k :: 0 <= k < |chain| ==> (h in Hashes(AllTransactions(chain[k])) <==> k in at)
    requires forall k :: k in at ==> 0 <= k < |chain|
    ensures ListedExactlyIn(SummaryOf(chain), h, at)
  {
  }

  /** "t" is a result of "r", and "r" is a result of neither. */
  predicate IsPair(self: nat, r: Tx, t: Tx) {
    && t.previousHash == r.hash != t.hash && t.sourceShard == self
    && r.previousHash != r.hash && r.previousHash != t.hash
  }

  lemma {:induction false} OnlySecondIsReached(self: nat, items: seq<Tx>, r: Tx, t: Tx, n: nat, root: string, x: Tx)
    requires IsPair(self, r, t) && forall y :: y in items ==> y == r || y == t
    requires root == r.hash || root == t.hash
    requires ReachIn(self, items, n, root, x)
    ensures x == t
  {
    if n > 0 {
      var parent := ReachParent(self, items, n, root, x);
    }
  }

  lemma {:induction false} PairIsAcyclic(self: nat, roots: seq<Tx>, items: seq<Tx>, r: Tx, t: Tx)
    requires IsPair(self, r, t) && forall x :: x in items ==> x == r || x == t
    ensures AcyclicBelowAll(self, roots, items)
  {
    forall x | x in items ensures !Reachable(self, items, x.hash, x) {
      if n: nat :| ReachIn(self, items, n, x.hash, x) {
        OnlySecondIsReached(self, items, r, t, n, x.hash, x);
        if n > 0 {
          var parent := ReachParent(self, items, n, x.hash, x);
          assert false;
        }
      }
    }
  }

  lemma {:induction false} ResultIsTakenAhead(self: nat, block: Block, next: Block, r: Tx, t: Tx)
    requires IsPair(self, r, t)
    requires r in ScheduledTransactions(block) && t in AllTransactions(next)
    ensures t.hash in ExecutedAhead(self, block, next)
  {
    var roots, items := ScheduledTransactions(block), AllTransactions(next);
    ReachChild(self, items, r.hash, t);
    assert IsImmediateResult(self, roots, items, t);
  }

  /** Taken ahead by two blocks in a row: "r" is scheduled twice, and its result "t" listed twice. */
  lemma {:induction false} TakenAheadTwiceTakesEffectTwice(shard: nat, r: Tx, t: Tx) returns (chain: seq<Block>)
    requires IsPair(shard, r, t)
    ensures |chain| == 5 && forall k :: 0 <= k < |chain| ==> chain[k].shard == shard
    ensures forall k :: 0 < k < 4 ==> Searchable(shard, chain[k - 1], chain[k], chain[k + 1])
    ensures ChainEffectiveUpTo(chain, 4)[t.hash] == 2
  {
    hide AllTransactions, ScheduledTransactions, ChainEffectiveUpTo, Hashes, ExecutedAhead, AcyclicBelowAll;
    var none, last := BlockWith(shard, "", []), BlockWith(shard, "", [t]);
    var first, second := BlockWith(shard, PROCESSING_SCHEDULED, [r]), BlockWith(shard, PROCESSING_SCHEDULED, [r, t]);
    chain := [none, first, second, last, none];
    InBlockWith(shard, "", []);
    InBlockWith(shard, "", [t]);
    InBlockWith(shard, PROCESSING_SCHEDULED, [r]);
    InBlockWith(shard, PROCESSING_SCHEDULED, [r, t]);
    HashesOfOne(t);
    HashesOfOne(r);
    HashesOfTwo(r, t);
    PairIsAcyclic(shard, [], [r], r, t);
    PairIsAcyclic(shard, [r], [r, t], r, t);
    PairIsAcyclic(shard, [r, t], [t], r, t);
    PairIsAcyclic(shard, [], [], r, t);
    ResultIsTakenAhead(shard, first, second, r, t);
    ResultIsTakenAhead(shard, second, last, r, t);
    EffectiveCountInFive(shard, none, first, second, last, none, t.hash);
    forall k | 0 < k < 4 ensures Searchable(shard, chain[k - 1], chain[k], chain[k + 1]) {
      assert k == 1 || k == 2 || k == 3;
    }
  }
}
