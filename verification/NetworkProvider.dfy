/** The provider's way from a nonce or a hash to a block: cache, copies and in-place simplification
    (server/provider/networkProvider.go). */
module NetworkProvider {
  import opened Encoding
  import opened Chain
  import opened ScheduledSpec
  import opened BlockObjects
  import opened ScheduledMiniblocks
  import opened CacheProtocol

  ghost predicate IsChain(chain: seq<Block>, highestFinal: nat) {
    && ValidObserver(Observer(chain, highestFinal))
    && forall n :: 0 < n < |chain| - 1 ==> Searchable(chain[n].shard, chain[n - 1], chain[n], chain[n + 1])
  }

  /** Final blocks stay, and stay final. */
  ghost predicate IsLater(chain: seq<Block>, highestFinal: nat, chain': seq<Block>, highestFinal': nat)
    requires highestFinal < |chain|
  {
    && IsChain(chain', highestFinal')
    && highestFinal <= highestFinal'
    && forall n :: 0 <= n <= highestFinal ==> chain'[n] == chain[n]
  }

  /** The observer, as far as blocks go; each response is decoded into objects of its own. */
  class ObserverFacade {
    var chain: seq<Block>
    var highestFinal: nat

    ghost predicate Valid()
      reads this
    {
      IsChain(chain, highestFinal)
    }

    constructor (chain: seq<Block>, highestFinal: nat)
      ensures this.chain == chain && this.highestFinal == highestFinal
    {
      this.chain := chain;
      this.highestFinal := highestFinal;
    }

    /** The chain grows, finalises blocks, and replaces its non-final tail. */
    method Advance(chain': seq<Block>, highestFinal': nat)
      requires Valid() && IsLater(chain, highestFinal, chain', highestFinal')
      modifies this
      ensures Valid() && chain == chain' && highestFinal == highestFinal'
    {
      chain, highestFinal := chain', highestFinal';
    }

    method GetBlockByNonce(nonce: nat) returns (response: Option<ApiBlock>)
      ensures response.Some? <==> nonce < |chain|
      ensures response.Some? ==> response.value.View() == chain[nonce] && AllNew(response.value)
    {
      if nonce >= |chain| {
        return None;
      }
      var block := Decode(chain[nonce]);
      return Some(block);
    }

    method GetBlockByHash(hash: string) returns (response: Option<ApiBlock>)
      requires Valid()
      ensures response.None? ==> forall n :: !IsFirstWithHash(chain, hash, n)
      ensures response.Some? ==>
                && AllNew(response.value)
                && IsFirstWithHash(chain, hash, response.value.nonce)
                && response.value.View() == chain[response.value.nonce]
    {
      hide Searchable;
      for i := 0 to |chain|
        invariant forall n :: 0 <= n < i ==> chain[n].hash != hash
      {
        if chain[i].hash == hash {
          var block := Decode(chain[i]);
          return Some(block);
        }
      }
      return None;
    }
  }

  /** The block found under a hash; hashes that occur once leave no choice. */
  predicate IsFirstWithHash(chain: seq<Block>, hash: string, n: int) {
    0 <= n < |chain| && chain[n].hash == hash && forall m :: 0 <= m < n ==> chain[m].hash != hash
  }

  lemma {:induction false} FirstIsUnique(chain: seq<Block>, hash: string, n: int)
    requires IsFirstWithHash(chain, hash, n)
    ensures n < |chain|
    ensures forall m :: IsFirstWithHash(chain, hash, m) <==> m == n
  {
  }

  /** No part of the block existed before. */
  twostate predicate AllNew(new block: ApiBlock)
    reads block
  {
    fresh(block) && forall t :: t in ObjectsOf(block.miniblocks) ==> fresh(t)
  }

  method Decode(data: Block) returns (block: ApiBlock)
    ensures block.View() == data && AllNew(block)
  {
    hide ObjectsOf;
    var miniblocks: seq<ApiMiniblock> := [];
    NoObjects();
    for i := 0 to |data.miniblocks|
      invariant Views(miniblocks) == data.miniblocks[..i]
      invariant forall t :: t in ObjectsOf(miniblocks) ==> fresh(t)
    {
      var m := data.miniblocks[i];
      var txs: seq<ApiTransaction> := [];
      for j := 0 to |m.transactions|
        invariant Data(txs) == m.transactions[..j]
        invariant forall t :: t in txs ==> fresh(t)
      {
        var tx := new ApiTransaction(m.transactions[j]);
        txs := txs + [tx];
      }
      var miniblock := new ApiMiniblock(m.kind, m.hash, m.processingType, m.constructionState,
                                        m.sourceShard, m.destinationShard, txs, m.receipts);
      assert m.transactions[..|m.transactions|] == m.transactions;
      assert miniblock.View() == m;
      ObjectsOfLast(miniblocks, miniblock);
      miniblocks := miniblocks + [miniblock];
    }
    block := new ApiBlock(data, miniblocks);
  }

  lemma {:induction false} NoObjects()
    ensures ObjectsOf([]) == []
  {
  }

  /** A copy with miniblocks of its own, whose transactions are those of the original. */
  method CreateBlockCopy(block: ApiBlock) returns (copy: ApiBlock)
    ensures fresh(copy) && forall m :: m in copy.miniblocks ==> fresh(m)
    ensures copy.View() == block.View()
    ensures ObjectsOf(copy.miniblocks) == ObjectsOf(block.miniblocks)
  {
    hide ObjectsOf;
    var miniblocksCopy: seq<ApiMiniblock> := [];
    assert block.miniblocks[..0] == [];
    for i := 0 to |block.miniblocks|
      invariant Views(miniblocksCopy) == Views(block.miniblocks)[..i]
      invariant ObjectsOf(miniblocksCopy) == ObjectsOf(block.miniblocks[..i])
      invariant forall m :: m in miniblocksCopy ==> fresh(m)
    {
      var miniblock := block.miniblocks[i];
      var miniblockCopy := new ApiMiniblock(
        miniblock.kind, miniblock.hash, miniblock.processingType, miniblock.constructionState,
        miniblock.sourceShard, miniblock.destinationShard, miniblock.transactions, miniblock.receipts);
      ObjectsOfLast(miniblocksCopy, miniblockCopy);
      assert block.miniblocks[..i + 1] == block.miniblocks[..i] + [miniblock];
      ObjectsOfLast(block.miniblocks[..i], miniblock);
      miniblocksCopy := miniblocksCopy + [miniblockCopy];
    }
    assert block.miniblocks[..|block.miniblocks|] == block.miniblocks;
    copy := new ApiBlock(
      Block(block.nonce, block.round, block.epoch, block.shard, block.numTxs, block.hash, block.prevBlockHash,
            block.stateRootHash, block.status, block.timestamp, []),
      miniblocksCopy);
  }

  class NetworkProvider {
    const facade: ObserverFacade
    const isOffline: bool
    var blocksCache: map<nat, ApiBlock>
    // All blocks that have been cached, and the transaction objects they hold.
    ghost var held: set<ApiBlock>
    ghost var shared: set<ApiTransaction>

    /** Every cached block is what the observer holds now. */
    ghost predicate Coherent()
      reads this, facade, held
    {
      && facade.Valid()
      && forall n :: n in blocksCache ==> HoldsCopyOf(blocksCache[n], n)
    }

    ghost predicate HoldsCopyOf(block: ApiBlock, nonce: nat)
      reads this, facade, held
    {
      && nonce < |facade.chain|
      && block in held
      && block.View() == facade.chain[nonce]
      && forall t :: t in ObjectsOf(block.miniblocks) ==> t in shared
    }

    ghost predicate CachesOnlyFinal()
      reads this, facade
    {
      forall n :: n in blocksCache ==> n <= facade.highestFinal
    }

    constructor (facade: ObserverFacade, isOffline: bool)
      requires facade.Valid()
      ensures this.facade == facade && this.isOffline == isOffline
      ensures Coherent() && CachesOnlyFinal() && blocksCache == map[] && held == {} && shared == {}
    {
      this.facade := facade;
      this.isOffline := isOffline;
      blocksCache := map[];
      held := {};
      shared := {};
    }

    /** Putting a block may push out any others (least recently used). */
    method CacheBlockByNonce(nonce: nat, block: ApiBlock)
      modifies this
      ensures nonce in blocksCache && blocksCache[nonce] == block
      ensures forall n :: n in blocksCache && n != nonce ==>
                n in old(blocksCache) && blocksCache[n] == old(blocksCache)[n]
      ensures held == old(held) + {block}
      ensures shared == old(shared) + set t | t in ObjectsOf(block.miniblocks)
    {
      var kept: set<nat> :| kept <= blocksCache.Keys;
      blocksCache := (map n | n in kept :: blocksCache[n])[nonce := block];
      held := held + {block};
      shared := shared + set t | t in ObjectsOf(block.miniblocks);
    }

    /** The way past the cache: the observer's response is cached as it is. */
    method FetchBlockByNonce(nonce: nat) returns (result: Option<ApiBlock>)
      requires Coherent()
      modifies this
      ensures Coherent()
      ensures old(CachesOnlyFinal()) && nonce <= facade.highestFinal ==> CachesOnlyFinal()
      ensures result.Some? <==> nonce < |facade.chain|
      ensures result.None? ==> blocksCache == old(blocksCache)
      ensures result.Some? ==> HoldsCopyOf(result.value, nonce) && nonce in blocksCache
      ensures old(held) <= held && fresh(held - old(held))
      ensures old(shared) <= shared && fresh(shared - old(shared))
    {
      hide Searchable, ObjectsOf;
      var response := facade.GetBlockByNonce(nonce);
      if response.None? {
        return None;
      }
      var block := response.value;
      label Before:
      CacheBlockByNonce(nonce, block);
      forall n | n in blocksCache ensures HoldsCopyOf(blocksCache[n], n) {
        if n != nonce {
          assert old@Before(HoldsCopyOf(blocksCache[n], n));
        }
      }
      return Some(block);
    }

    method DoGetBlockByNonce(nonce: nat) returns (result: Option<ApiBlock>)
      requires Coherent()
      modifies this
      ensures Coherent()
      ensures old(CachesOnlyFinal()) && nonce <= facade.highestFinal ==> CachesOnlyFinal()
      ensures result.Some? <==> nonce < |facade.chain|
      ensures result.None? ==> blocksCache == old(blocksCache) && CachesOnlyFinal() == old(CachesOnlyFinal())
      ensures result.Some? ==>
                && fresh(result.value) && result.value !in held
                && result.value.View() == facade.chain[nonce]
                && forall t :: t in ObjectsOf(result.value.miniblocks) ==> t in shared
      ensures result.Some? && nonce > facade.highestFinal ==> !CachesOnlyFinal()
      ensures old(held) <= held && fresh(held - old(held))
      ensures old(shared) <= shared && fresh(shared - old(shared))
    {
      hide Searchable, ObjectsOf;
      if nonce in blocksCache {
        assert HoldsCopyOf(blocksCache[nonce], nonce);
        var copy := CreateBlockCopy(blocksCache[nonce]);
        return Some(copy);
      }
      var block := FetchBlockByNonce(nonce);
      if block.None? {
        return None;
      }
      var copy := CreateBlockCopy(block.value);
      return Some(copy);
    }

    /** Whether asking for the neighbours of a block only caches final ones. */
    predicate LeavesFinal(nonce: nat)
      reads facade
    {
      LeavesCacheSafe(Observer(facade.chain, facade.highestFinal), nonce)
    }

    /** The blocks before and after; None where one is missing. */
    method GetNeighbours(nonce: nat) returns (previous: Option<ApiBlock>, next: Option<ApiBlock>)
      requires Coherent()
      requires nonce < |facade.chain|
      modifies this
      ensures Coherent()
      ensures old(CachesOnlyFinal()) ==> (CachesOnlyFinal() <==> LeavesFinal(nonce))
      ensures previous.Some? && next.Some? <==> 1 <= nonce && nonce + 1 < |facade.chain|
      ensures previous.Some? && next.Some? ==>
                && previous.value.View() == facade.chain[nonce - 1] && next.value.View() == facade.chain[nonce + 1]
                && fresh(previous.value) && fresh(next.value)
                && forall t :: t in ObjectsOf(next.value.miniblocks) ==> t in shared
      ensures old(held) <= held && fresh(held - old(held))
      ensures old(shared) <= shared && fresh(shared - old(shared))
    {
      hide Searchable, ObjectsOf, HoldsCopyOf, CachesOnlyFinal;
      next := None;
      previous := DoGetBlockByNonce(Around(nonce)[1]);
      if previous.None? {
        return;
      }
      next := DoGetBlockByNonce(Around(nonce)[2]);
    }

    /** Rewrites "block", a copy held by nobody else, in terms of its neighbours. */
    method SimplifyBlockWithScheduledTransactions(block: ApiBlock) returns (ok: bool)
      requires Coherent()
      requires block !in held
      requires block.nonce < |facade.chain| && block.View() == facade.chain[block.nonce]
      modifies this, block
      ensures Coherent()
      ensures old(CachesOnlyFinal()) ==> (CachesOnlyFinal() <==> LeavesFinal(block.nonce))
      ensures ok <==> 1 <= block.nonce && block.nonce + 1 < |facade.chain|
      ensures ok ==> IsSimplified(facade.chain[block.nonce - 1], facade.chain[block.nonce],
                                  facade.chain[block.nonce + 1], block.View())
      ensures ok ==> forall t :: t in ObjectsOf(block.miniblocks) ==>
                t in old(ObjectsOf(block.miniblocks)) || t in shared
      ensures block !in held && old(held) <= held && fresh(held - old(held))
      ensures old(shared) <= shared && fresh(shared - old(shared))
    {
      hide IsSimplified, Searchable, ObjectsOf, HoldsCopyOf;
      var previous, next := GetNeighbours(block.nonce);
      if previous.None? || next.None? {
        return false;
      }
      DoSimplifyBlockWithScheduledTransactions(previous.value, block, next.value);
      return true;
    }

    method GetLatestBlockNonce() returns (latest: Option<nat>)
      ensures latest == LatestNonceGivenHighestFinalNonce(facade.highestFinal)
      ensures latest.Some? <==> facade.highestFinal > 2
      ensures latest.Some? ==> latest.value + 2 == facade.highestFinal
    {
      latest := LatestNonceGivenHighestFinalNonce(facade.highestFinal);
    }

    method GetBlockByNonce(nonce: nat) returns (result: Option<ApiBlock>)
      requires Coherent() && CachesOnlyFinal()
      modifies this
      ensures Coherent() && CachesOnlyFinal()
      ensures result.Some? <==> !isOffline && 1 <= nonce && nonce + NONCE_DELTA <= facade.highestFinal
      ensures result.Some? ==>
                && fresh(result.value) && result.value !in held
                && IsSimplified(facade.chain[nonce - 1], facade.chain[nonce], facade.chain[nonce + 1],
                                result.value.View())
                && forall t :: t in ObjectsOf(result.value.miniblocks) ==> t in shared
      ensures old(held) <= held && fresh(held - old(held))
      ensures old(shared) <= shared && fresh(shared - old(shared))
    {
      hide IsSimplified, Searchable, ObjectsOf, HoldsCopyOf;
      if isOffline {
        return None;
      }
      var latest := GetLatestBlockNonce();
      if latest.None? || nonce > latest.value {
        return None;
      }
      var block := DoGetBlockByNonce(nonce);
      if block.None? {
        return None;
      }
      var ok := SimplifyBlockWithScheduledTransactions(block.value);
      result := if ok then block else None;
    }

    /** No finality check here: the cache stays final exactly where the neighbours asked for are final, whether the
        request succeeds or not. */
    method GetBlockByHash(hash: string) returns (result: Option<ApiBlock>)
      requires Coherent()
      modifies this
      ensures Coherent()
      ensures isOffline ==> blocksCache == old(blocksCache)
      ensures old(CachesOnlyFinal()) && !isOffline ==>
                (CachesOnlyFinal() <==> forall n: nat :: IsFirstWithHash(facade.chain, hash, n) ==> LeavesFinal(n))
      ensures result.Some? <==>
                !isOffline && exists n :: IsFirstWithHash(facade.chain, hash, n) && 1 <= n && n + 1 < |facade.chain|
      ensures result.Some? ==>
                && fresh(result.value) && result.value !in held
                && IsFirstWithHash(facade.chain, hash, result.value.nonce)
                && 1 <= result.value.nonce && result.value.nonce + 1 < |facade.chain|
                && IsSimplified(facade.chain[result.value.nonce - 1], facade.chain[result.value.nonce],
                                facade.chain[result.value.nonce + 1], result.value.View())
                && forall t :: t in ObjectsOf(result.value.miniblocks) ==> t in shared || fresh(t)
      ensures old(held) <= held && fresh(held - old(held))
      ensures old(shared) <= shared && fresh(shared - old(shared))
    {
      hide IsSimplified, Searchable, ObjectsOf, HoldsCopyOf, IsFirstWithHash;
      if isOffline {
        return None;
      }
      var block := facade.GetBlockByHash(hash);
      if block.None? {
        return None;
      }
      ghost var nonce := block.value.nonce;
      FirstIsUnique(facade.chain, hash, nonce);
      var ok := SimplifyBlockWithScheduledTransactions(block.value);
      if !ok {
        return None;
      }
      assert IsSimplified(facade.chain[nonce - 1], facade.chain[nonce], facade.chain[nonce + 1], block.value.View());
      return block;
    }
  }
}
