/** Serving the same block again: the cache shares transaction objects with what is handed out, and the
    transformer writes into them, yet the answer stays the same up to order. */
module Serving {
  import opened Encoding
  import opened Chain
  import opened Network
  import opened Operations
  import opened Transformer
  import opened BlockObjects
  import opened ScheduledSpec
  import opened ScheduledMiniblocks
  import opened BlockTransformer
  import Objects = OperationObjects
  import Provider = NetworkProvider
  import Cache = CacheProtocol

  /** Two simplified forms of the same block list the same transactions, up to order, and the same receipts. */
  lemma {:induction false} SimplifiedFormsAgree(previous: Block, current: Block, next: Block, a: Block, b: Block)
    requires Searchable(current.shard, previous, current, next)
    requires IsSimplified(previous, current, next, a) && IsSimplified(previous, current, next, b)
    ensures multiset(AllTransactions(a)) == multiset(AllTransactions(b))
    ensures AllReceipts(a) == AllReceipts(b)
  {
    hide AllTransactions, AllReceipts, EffectiveByHash, Lists;
    if HasScheduled(previous) || HasScheduled(current) {
      ListingsArePermutations(AllTransactions(a), AllTransactions(b),
                              EffectiveByHash(current.shard, previous, current, next));
    }
  }

  /** The transactions served for simplified block "a" and for simplified block "b" are the same up to order. */
  lemma {:induction false} SimplifiedFormsServeTheSame(
      net: Network, previous: Block, current: Block, next: Block, a: Block, b: Block)
    requires Searchable(current.shard, previous, current, next)
    requires IsSimplified(previous, current, next, a) && IsSimplified(previous, current, next, b)
    ensures var servedA := TransformBlock(net, AllTransactions(a), AllReceipts(a));
      var servedB := TransformBlock(net, AllTransactions(b), AllReceipts(b));
      && (servedA.Some? <==> servedB.Some?)
      && (servedA.Some? ==> multiset(servedA.value) == multiset(servedB.value))
  {
    hide IsSimplified, TransformBlock;
    SimplifiedFormsAgree(previous, current, next, a, b);
    TransformPermutation(net, AllTransactions(a), AllTransactions(b), AllReceipts(a));
  }

  /** Along any run of the protocol, with other clients, growth, rollback, finalisation and eviction in between: two
      answers to the same request are served as the same Rosetta transactions up to order. */
  lemma {:induction false} ServedTheSameAlongRuns(
      net: Network, states: seq<Cache.State>, events: seq<Cache.Event>, i: nat, j: nat, nonce: nat, a: Block, b: Block)
    requires Cache.GuardedRun(states, events) && Cache.Initial(states[0])
    requires i <= j < |events| && events[i].Serve? && events[j].Serve?
    requires states[i].clients[events[i].client].wanted == Cache.Around(nonce)
    requires states[j].clients[events[j].client].wanted == Cache.Around(nonce)
    requires SimplifiedFrom(states[i].clients[events[i].client].got, a)
    requires SimplifiedFrom(states[j].clients[events[j].client].got, b)
    ensures var servedA := TransformBlock(net, AllTransactions(a), AllReceipts(a));
      var servedB := TransformBlock(net, AllTransactions(b), AllReceipts(b));
      && (servedA.Some? <==> servedB.Some?)
      && (servedA.Some? ==> multiset(servedA.value) == multiset(servedB.value))
  {
    hide IsSimplified, TransformBlock, Searchable;
    Cache.AnswersNeverChange(states, events, i, j);
    var got := states[i].clients[events[i].client].got;
    SimplifiedFormsServeTheSame(net, got[1], got[0], got[2], a, b);
  }

  /** "simplified" is made of a block, the one before and the one after, in the order in which they are got. */
  ghost predicate SimplifiedFrom(got: seq<Block>, simplified: Block) {
    && |got| == 3
    && Searchable(got[0].shard, got[1], got[0], got[2])
    && IsSimplified(got[1], got[0], got[2], simplified)
  }

  /** A request by nonce, from the cache to the Rosetta transactions. */
  method GetBlockByNonce(net: Network, provider: Provider.NetworkProvider, nonce: nat)
    returns (result: Option<seq<Objects.RosettaTransaction>>,
             ghost simplified: Option<Block>, ghost views: Option<seq<RosettaTx>>)
    requires provider.Coherent() && provider.CachesOnlyFinal()
    modifies provider, provider.shared
    ensures provider.Coherent() && provider.CachesOnlyFinal()
    ensures simplified.Some? <==> !provider.isOffline && 1 <= nonce && nonce + 2 <= provider.facade.highestFinal
    ensures simplified.Some? ==>
              && IsSimplified(provider.facade.chain[nonce - 1], provider.facade.chain[nonce],
                              provider.facade.chain[nonce + 1], simplified.value)
              && views == TransformBlock(net, AllTransactions(simplified.value), AllReceipts(simplified.value))
    ensures simplified.None? ==> views.None?
    ensures result.Some? <==> views.Some?
    ensures views.Some? ==>
              |result.value| == |views.value|
              && forall i :: 0 <= i < |views.value| ==> result.value[i].View() == views.value[i]
    ensures fresh(provider.held - old(provider.held)) && fresh(provider.shared - old(provider.shared))
  {
    hide IsSimplified, TransformBlock, ObjectsOf, AllTransactions, AllReceipts, Searchable;
    var block := provider.GetBlockByNonce(nonce);
    if block.None? {
      return None, None, None;
    }
    simplified := Some(block.value.View());
    views := TransformBlock(net, AllTransactions(simplified.value), AllReceipts(simplified.value));
    result := TransformBlockTxs(net, block.value);
  }

  /** The observer moves on; what is cached is final and therefore still right. */
  method Advance(provider: Provider.NetworkProvider, chain: seq<Block>, highestFinal: nat)
    requires provider.Coherent() && provider.CachesOnlyFinal()
    requires Provider.IsLater(provider.facade.chain, provider.facade.highestFinal, chain, highestFinal)
    modifies provider.facade
    ensures provider.Coherent() && provider.CachesOnlyFinal()
    ensures provider.facade.chain == chain && provider.facade.highestFinal == highestFinal
  {
    hide Searchable, ObjectsOf;
    provider.facade.Advance(chain, highestFinal);
    assert forall n :: n in provider.blocksCache ==> old(provider.HoldsCopyOf(provider.blocksCache[n], n));
  }

  /** Two requests for the same nonce, between which the observer moves on: once a block can be served it stays so,
      and both requests fail, or both give the same transactions up to order, although the first one wrote into
      transaction objects that the cache holds. */
  method ServeTwice(net: Network, provider: Provider.NetworkProvider, nonce: nat, chain: seq<Block>, highestFinal: nat)
    returns (second: Option<seq<Objects.RosettaTransaction>>,
             ghost firstViews: Option<seq<RosettaTx>>, ghost secondViews: Option<seq<RosettaTx>>)
    requires provider.Coherent() && provider.CachesOnlyFinal()
    requires Provider.IsLater(provider.facade.chain, provider.facade.highestFinal, chain, highestFinal)
    modifies provider, provider.facade, provider.shared
    ensures provider.Coherent() && provider.CachesOnlyFinal() && provider.facade.chain == chain
    ensures second.Some? <==> secondViews.Some?
    ensures secondViews.Some? ==>
              |second.value| == |secondViews.value|
              && forall i :: 0 <= i < |secondViews.value| ==> second.value[i].View() == secondViews.value[i]
    ensures firstViews.Some? ==> secondViews.Some? && multiset(firstViews.value) == multiset(secondViews.value)
    ensures secondViews.Some? && nonce + 2 <= old(provider.facade.highestFinal) ==> firstViews.Some?
  {
    hide IsSimplified, TransformBlock, AllTransactions, AllReceipts, ObjectsOf, Searchable;
    var first, a, viewsOfFirst := GetBlockByNonce(net, provider, nonce);
    ghost var before := provider.facade.chain;
    Advance(provider, chain, highestFinal);
    var again, b, viewsOfSecond := GetBlockByNonce(net, provider, nonce);
    second, firstViews, secondViews := again, viewsOfFirst, viewsOfSecond;
    if a.Some? {
      assert before[nonce - 1] == chain[nonce - 1] && before[nonce] == chain[nonce];
      assert before[nonce + 1] == chain[nonce + 1];
      SimplifiedFormsServeTheSame(net, chain[nonce - 1], chain[nonce], chain[nonce + 1], a.value, b.value);
    }
  }
}
