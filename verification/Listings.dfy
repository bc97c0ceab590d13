/** What the blocks of a chain hand out, as lists: how often each hash occurs in them all together. */
module Listings {
  import opened Chain
  import opened ScheduledSpec
  import opened ScheduledMiniblocks
  import opened ExactlyOnce

  function CountHash(txs: seq<Tx>, h: string): nat {
    if txs == [] then 0
    else CountHash(txs[..|txs| - 1], h) + (if txs[|txs| - 1].hash == h then 1 else 0)
  }

  lemma {:induction false} CountsListed(txs: seq<Tx>, h: string)
    ensures CountHash(txs, h) > 0 <==> h in Hashes(txs)
    ensures DistinctHashes(txs) ==> CountHash(txs, h) <= 1
  {
    if txs != [] {
      var init, last := txs[..|txs| - 1], txs[|txs| - 1];
      assert txs == init + [last];
      CountsListed(init, h);
      assert Hashes(txs) == Hashes(init) + {last.hash};
    }
  }

  ghost predicate ReturnsEarly(previous: Block, current: Block) {
    !HasScheduled(previous) && !HasScheduled(current)
  }

  /** Each list is what the gathering may return for its block, in whatever order. */
  ghost predicate AreListings(chain: seq<Block>, listings: seq<seq<Tx>>) {
    && |listings| == |chain|
    && forall k :: 0 < k < |chain| - 1 ==>
         && Searchable(chain[k].shard, chain[k - 1], chain[k], chain[k + 1])
         && IsEffectiveListing(chain[k].shard, chain[k - 1], chain[k], chain[k + 1], listings[k])
  }

  /** What blocks 1 to n - 1 hand out under one hash. */
  ghost function HandedOutUpTo(listings: seq<seq<Tx>>, h: string, n: int): nat
    requires 1 <= n < |listings|
  {
    if n == 1 then 0 else HandedOutUpTo(listings, h, n - 1) + CountHash(listings[n - 1], h)
  }

  /** No block that returns early lists the hash more than once. */
  ghost predicate ListedOnceWhereEarly(chain: seq<Block>, h: string, n: int) {
    forall k :: 0 < k < n && k < |chain| && ReturnsEarly(chain[k - 1], chain[k]) ==>
      CountHash(AllTransactions(chain[k]), h) <= 1
  }

  lemma {:induction false} CountInListing(
      self: nat, previous: Block, current: Block, next: Block, txs: seq<Tx>, h: string)
    requires Searchable(self, previous, current, next)
    requires IsEffectiveListing(self, previous, current, next, txs)
    ensures h !in EffectiveHashes(self, previous, current, next) ==> CountHash(txs, h) == 0
    ensures h in EffectiveHashes(self, previous, current, next) ==>
              CountHash(txs, h) == if ReturnsEarly(previous, current) then CountHash(AllTransactions(current), h) else 1
    ensures h in EffectiveHashes(self, previous, current, next) ==> CountHash(txs, h) >= 1
    ensures ReturnsEarly(previous, current) ==>
              CountHash(txs, h) == CountHash(AllTransactions(current), h)
  {
    hide EffectiveHashes, EffectiveByHash, Searchable, AllTransactions, HasScheduled, Hashes;
    ListingHashes(self, previous, current, next, txs);
    CountsListed(txs, h);
  }

  /** For any chain of one shard and any hash, listed as it may be: the lists hold it at least as often as it takes
      effect, and exactly as often if and only if no block that returns early lists it more than once. */
  lemma {:induction false} HandedOutAsOftenAsEffective(chain: seq<Block>, listings: seq<seq<Tx>>, h: string, n: int)
    requires AreListings(chain, listings)
    requires 1 <= n < |chain|
    ensures HandedOutUpTo(listings, h, n) >= ChainEffectiveUpTo(chain, n)[h]
    ensures HandedOutUpTo(listings, h, n) == ChainEffectiveUpTo(chain, n)[h] <==> ListedOnceWhereEarly(chain, h, n)
  {
    hide EffectiveHashes, Searchable, IsEffectiveListing, AllTransactions, ReturnsEarly, CountHash;
    if n > 1 {
      var k := n - 1;
      HandedOutAsOftenAsEffective(chain, listings, h, k);
      CountInListing(chain[k].shard, chain[k - 1], chain[k], chain[k + 1], listings[k], h);
      assert k - 1 == n - 2 && k + 1 == n;
      assert ListedOnceWhereEarly(chain, h, n) <==>
             ListedOnceWhereEarly(chain, h, k)
             && (ReturnsEarly(chain[k - 1], chain[k]) ==> CountHash(AllTransactions(chain[k]), h) <= 1);
    }
  }

  /** A hash listed properly and away from the ends is handed out exactly once, all lists taken together, if and
      only if no block that returns early lists it more than once; a hash that is never listed is never handed out. */
  lemma {:induction false} ChainHandsOutEachHashOnce(chain: seq<Block>, listings: seq<seq<Tx>>, h: string)
    requires |chain| >= 2
    requires forall k :: 0 <= k < |chain| ==> chain[k].shard == chain[0].shard
    requires AreListings(chain, listings)
    ensures Inner(SummaryOf(chain), h) ==>
              (HandedOutUpTo(listings, h, |chain| - 1) == 1 <==> ListedOnceWhereEarly(chain, h, |chain| - 1))
    ensures h !in ListedUpTo(SummaryOf(chain), |chain|) ==> HandedOutUpTo(listings, h, |chain| - 1) == 0
  {
    hide *;
    ChainServesEachHashOnce(chain);
    HandedOutAsOftenAsEffective(chain, listings, h, |chain| - 1);
    if h !in ListedUpTo(SummaryOf(chain), |chain|) {
      UnlistedIsListedOnce(chain, h);
    }
  }

  lemma {:induction false} UnlistedIsListedOnce(chain: seq<Block>, h: string)
    requires h !in ListedUpTo(SummaryOf(chain), |chain|)
    ensures forall n :: ListedOnceWhereEarly(chain, h, n)
  {
    var run := SummaryOf(chain);
    ListedUpToMembers(run, |run|, h);
    forall k | 0 <= k < |chain| ensures CountHash(AllTransactions(chain[k]), h) == 0 {
      assert !ListedIn(run, k, h);
      CountsListed(AllTransactions(chain[k]), h);
    }
  }

  /** Nothing is lost: the block that lists a hash first hands it out, or the one before does. */
  lemma {:induction false} FirstListingIsHandedOut(chain: seq<Block>, listings: seq<seq<Tx>>, k: int, h: string)
    requires forall j :: 0 <= j < |chain| ==> chain[j].shard == chain[0].shard
    requires AreListings(chain, listings)
    requires 2 <= k < |chain| - 1
    requires h in Hashes(AllTransactions(chain[k])) && h !in Hashes(AllTransactions(chain[k - 1]))
    ensures h in Hashes(listings[k]) || h in Hashes(listings[k - 1])
  {
    hide EffectiveHashes, Searchable, IsEffectiveListing, AllTransactions, Hashes;
    ChainLosesNothing(chain, k, h);
    ListingHashes(chain[k].shard, chain[k - 1], chain[k], chain[k + 1], listings[k]);
    var j := k - 1;
    ListingHashes(chain[j].shard, chain[j - 1], chain[j], chain[j + 1], listings[j]);
  }

  /** A relayed transaction and its invalid form, listed under one hash in a block that returns early, are both
      handed out. */
  lemma {:induction false} InvalidPairIsHandedOutTwice(
      self: nat, previous: Block, current: Block, next: Block, relayed: Tx, invalid: Tx, txs: seq<Tx>)
    requires ReturnsEarly(previous, current)
    requires AllTransactions(current) == [relayed, invalid]
    requires relayed.kind == Normal && invalid.kind == Invalid && relayed.hash == invalid.hash
    requires Searchable(self, previous, current, next)
    requires IsEffectiveListing(self, previous, current, next, txs)
    ensures CountHash(txs, invalid.hash) == 2
  {
    assert txs == [relayed, invalid];
    assert txs[..1] == [relayed] && [relayed][..0] == [];
    assert CountHash([relayed], invalid.hash) == 1;
  }
}
