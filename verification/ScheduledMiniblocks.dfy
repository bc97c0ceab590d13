/** The reconciliation of scheduled miniblocks as the provider runs it, loop by loop and on shared objects
    (server/provider/scheduledMiniblocks.go). */
module ScheduledMiniblocks {
  import opened Chain
  import opened ScheduledSpec
  import opened BlockObjects

  method GatherAllTransactions(block: ApiBlock) returns (txs: seq<ApiTransaction>)
    ensures txs == ObjectsOf(block.miniblocks)
    ensures Data(txs) == AllTransactions(block.View())
  {
    txs := [];
    for i := 0 to |block.miniblocks|
      invariant txs == ObjectsOf(block.miniblocks[..i])
    {
      assert block.miniblocks[..i + 1][..i] == block.miniblocks[..i];
      for j := 0 to |block.miniblocks[i].transactions|
        invariant txs == ObjectsOf(block.miniblocks[..i]) + block.miniblocks[i].transactions[..j]
      {
        txs := txs + [block.miniblocks[i].transactions[j]];
      }
    }
    assert block.miniblocks[..|block.miniblocks|] == block.miniblocks;
    ObjectsHoldTransactions(block.miniblocks);
  }

  method GatherScheduledTransactions(block: ApiBlock) returns (txs: seq<ApiTransaction>)
    ensures txs == ScheduledObjectsOf(block.miniblocks)
    ensures Data(txs) == ScheduledTransactions(block.View())
    ensures forall t :: t in txs ==> t in ObjectsOf(block.miniblocks)
  {
    txs := [];
    for i := 0 to |block.miniblocks|
      invariant txs == ScheduledObjectsOf(block.miniblocks[..i])
    {
      assert block.miniblocks[..i + 1][..i] == block.miniblocks[..i];
      var isScheduled := block.miniblocks[i].processingType == PROCESSING_SCHEDULED;
      if !isScheduled {
        continue;
      }
      for j := 0 to |block.miniblocks[i].transactions|
        invariant txs == ScheduledObjectsOf(block.miniblocks[..i]) + block.miniblocks[i].transactions[..j]
      {
        txs := txs + [block.miniblocks[i].transactions[j]];
      }
    }
    assert block.miniblocks[..|block.miniblocks|] == block.miniblocks;
    ObjectsHoldTransactions(block.miniblocks);
  }

  method GatherAllReceipts(block: ApiBlock) returns (receipts: seq<Receipt>)
    ensures receipts == AllReceipts(block.View())
  {
    receipts := [];
    ghost var views := Views(block.miniblocks);
    for i := 0 to |block.miniblocks|
      invariant receipts == ReceiptsOf(views[..i])
    {
      assert views[..i + 1][..i] == views[..i];
      for j := 0 to |block.miniblocks[i].receipts|
        invariant receipts == ReceiptsOf(views[..i]) + block.miniblocks[i].receipts[..j]
      {
        receipts := receipts + [block.miniblocks[i].receipts[j]];
      }
    }
    assert views[..|views|] == views;
  }

  // ---------------------------------------------------------------- the search

  type ChildIndex = map<string, seq<ApiTransaction>>

  function Lookup(index: ChildIndex, hash: string): seq<ApiTransaction> {
    if hash in index then index[hash] else []
  }

  ghost function ChildObjects(items: seq<ApiTransaction>, root: string): (children: seq<ApiTransaction>)
    ensures forall c :: c in children ==> c in items
  {
    if items == [] then []
    else
      var last := items[|items| - 1];
      ChildObjects(items[..|items| - 1], root) + (if last.tx.previousHash == root then [last] else [])
  }

  lemma {:induction false} ChildObjectsHoldChildren(items: seq<ApiTransaction>, root: string)
    ensures Data(ChildObjects(items, root)) == Children(Data(items), root)
  {
    if items != [] {
      var init := items[..|items| - 1];
      ChildObjectsHoldChildren(init, root);
      assert Data(items)[..|items| - 1] == Data(init);
    }
  }

  ghost predicate Indexes(index: ChildIndex, items: seq<ApiTransaction>) {
    forall h: string :: Lookup(index, h) == ChildObjects(items, h)
  }

  method IndexByPreviousHash(items: seq<ApiTransaction>) returns (index: ChildIndex)
    ensures Indexes(index, items)
  {
    index := map[];
    for i := 0 to |items|
      invariant Indexes(index, items[..i])
    {
      var item := items[i];
      ghost var before := index;
      index := index[item.tx.previousHash := Lookup(index, item.tx.previousHash) + [item]];
      assert items[..i + 1][..i] == items[..i];
      forall h: string ensures Lookup(index, h) == ChildObjects(items[..i + 1], h) {
        assert Lookup(before, h) == ChildObjects(items[..i], h);
      }
    }
    assert items[..|items|] == items;
  }

  /** What one direct result adds: itself and, right after it, all its descendants. */
  lemma {:induction false} OneMoreDirectResult(
      self: nat, items: seq<Tx>, root: string, children: seq<Tx>, i: nat,
      before: seq<ApiTransaction>, direct: ApiTransaction, part: seq<ApiTransaction>)
    requires AcyclicBelow(self, items, root)
    requires children == Children(items, root)
    requires i < |children| && direct.tx == children[i] && direct.tx.sourceShard == self
    requires AcyclicBelow(self, items, direct.tx.hash)
    requires Data(before) == DescendantsVia(self, items, root, children[..i])
    requires Data(part) == Descendants(self, items, direct.tx.hash)
    ensures Data(before + [direct] + part) == DescendantsVia(self, items, root, children[..i + 1])
  {
    hide DescendantsVia, Descendants, AcyclicBelow, Children;
    DescendantsViaOneMore(self, items, root, children, i);
    assert before + [direct] + part == before + ([direct] + part);
    DataConcat(before, [direct] + part);
    DataConcat([direct], part);
    assert Data([direct]) == [direct.tx];
  }

  /** The recursion ends because every link leads to a smaller set of items below. */
  method FindImmediatelyExecutingContractResultsOfTransaction(
      selfShard: nat, tx: ApiTransaction, index: ChildIndex, ghost items: seq<ApiTransaction>)
    returns (results: seq<ApiTransaction>)
    requires AcyclicBelow(selfShard, Data(items), tx.tx.hash)
    requires Indexes(index, items)
    ensures Data(results) == Descendants(selfShard, Data(items), tx.tx.hash)
    ensures forall r :: r in results ==> r in items
    decreases |ReachSet(selfShard, Data(items), tx.tx.hash)|
  {
    hide DescendantsVia, Descendants, AcyclicBelow, Children, ReachSet, ChildObjects;
    results := [];
    var direct := Lookup(index, tx.tx.hash);
    ghost var root, all := tx.tx.hash, Data(items);
    ghost var children := Children(all, root);
    ChildObjectsHoldChildren(items, root);
    DescendantsFromNone(selfShard, all, root);
    assert children[..0] == [];
    for i := 0 to |direct|
      invariant Data(results) == DescendantsVia(selfShard, all, root, children[..i])
      invariant forall r :: r in results ==> r in items
    {
      var directResult := direct[i];
      assert directResult.tx == children[i] && children[i] in children;
      if directResult.tx.sourceShard != selfShard {
        DescendantsViaOneMore(selfShard, all, root, children, i);
        continue;
      }
      StrictDescent(selfShard, all, root, directResult.tx);
      var part := FindImmediatelyExecutingContractResultsOfTransaction(selfShard, directResult, index, items);
      OneMoreDirectResult(selfShard, all, root, children, i, results, directResult, part);
      results := results + [directResult];
      results := results + part;
    }
    assert children[..|children|] == children;
  }

  method FindImmediatelyExecutingContractResults(
      selfShard: nat, transactions: seq<ApiTransaction>, maybeContractResults: seq<ApiTransaction>)
    returns (results: seq<ApiTransaction>)
    requires AcyclicBelowAll(selfShard, Data(transactions), Data(maybeContractResults))
    ensures Data(results) == ImmediateResults(selfShard, Data(transactions), Data(maybeContractResults))
    ensures forall r :: r in results ==> r in maybeContractResults
  {
    hide Descendants, AcyclicBelow;
    results := [];
    var index := IndexByPreviousHash(maybeContractResults);
    ghost var roots := Data(transactions);
    for i := 0 to |transactions|
      invariant Data(results) == ImmediateResults(selfShard, roots[..i], Data(maybeContractResults))
      invariant forall r :: r in results ==> r in maybeContractResults
    {
      ImmediateResultsOneMore(selfShard, roots, Data(maybeContractResults), i);
      assert roots[i] in roots;
      var part := FindImmediatelyExecutingContractResultsOfTransaction(
        selfShard, transactions[i], index, maybeContractResults);
      results := results + part;
    }
    assert roots[..|transactions|] == roots;
  }

  // ---------------------------------------------------------------- map algebra

  type TxsByHash = map<string, ApiTransaction>

  ghost function DataByHash(txs: TxsByHash): map<string, Tx> {
    map h | h in txs :: txs[h].tx
  }

  lemma {:induction false} PutStep(before: TxsByHash, base: map<string, Tx>, data: seq<Tx>, t: ApiTransaction)
    requires data != [] && data[|data| - 1] == t.tx
    requires DataByHash(before) == base + LastByHash(data[..|data| - 1])
    ensures DataByHash(before[t.tx.hash := t]) == base + LastByHash(data)
  {
    assert DataByHash(before[t.tx.hash := t]) == DataByHash(before)[t.tx.hash := t.tx];
    UpdateOfSum(base, LastByHash(data[..|data| - 1]), t.tx.hash, t.tx);
  }

  lemma {:induction false} UpdateOfSum<K, V>(a: map<K, V>, b: map<K, V>, k: K, v: V)
    ensures (a + b)[k := v] == a + b[k := v]
  {
  }

  lemma {:induction false} DeleteStep(before: TxsByHash, base: map<string, Tx>, data: seq<Tx>, hash: string)
    requires data != [] && data[|data| - 1].hash == hash
    requires DataByHash(before) == base - Hashes(data[..|data| - 1])
    ensures DataByHash(before - {hash}) == base - Hashes(data)
  {
    assert data == data[..|data| - 1] + [data[|data| - 1]];
    assert Hashes(data) == Hashes(data[..|data| - 1]) + {hash};
    assert DataByHash(before - {hash}) == DataByHash(before) - {hash};
  }

  lemma {:induction false} NothingDone(base: map<string, Tx>, data: seq<Tx>)
    ensures base + LastByHash(data[..0]) == base - Hashes(data[..0]) == base
  {
  }

  ghost predicate ValuesIn(byHash: TxsByHash, objects: set<ApiTransaction>) {
    byHash.Values <= objects
  }

  lemma {:induction false} HeldAfterPut(before: TxsByHash, t: ApiTransaction, objects: set<ApiTransaction>)
    requires ValuesIn(before, objects) && t in objects
    ensures ValuesIn(before[t.tx.hash := t], objects)
  {
  }

  /** Write all of "txs", a later one over an earlier one of the same hash. */
  method PutAll(byHash: TxsByHash, txs: seq<ApiTransaction>) returns (updated: TxsByHash)
    ensures DataByHash(updated) == DataByHash(byHash) + LastByHash(Data(txs))
    ensures updated.Values <= byHash.Values + set t | t in txs
  {
    updated := PutEach(byHash, txs, byHash.Values + set t | t in txs);
  }

  method PutEach(byHash: TxsByHash, txs: seq<ApiTransaction>, ghost objects: set<ApiTransaction>)
    returns (updated: TxsByHash)
    requires ValuesIn(byHash, objects) && forall i :: 0 <= i < |txs| ==> txs[i] in objects
    ensures DataByHash(updated) == DataByHash(byHash) + LastByHash(Data(txs))
    ensures ValuesIn(updated, objects)
  {
    hide LastByHash, DataByHash, ValuesIn;
    updated := byHash;
    ghost var data, base := Data(txs), DataByHash(byHash);
    NothingDone(base, data);
    for i := 0 to |txs|
      invariant DataByHash(updated) == base + LastByHash(data[..i])
      invariant ValuesIn(updated, objects)
    {
      assert data[..i + 1][..i] == data[..i];
      PutStep(updated, base, data[..i + 1], txs[i]);
      HeldAfterPut(updated, txs[i], objects);
      updated := updated[txs[i].tx.hash := txs[i]];
    }
    assert data[..|txs|] == data;
  }

  method DeleteAll(byHash: TxsByHash, txs: seq<ApiTransaction>) returns (updated: TxsByHash)
    ensures DataByHash(updated) == DataByHash(byHash) - Hashes(Data(txs))
    ensures updated.Values <= byHash.Values
  {
    hide Hashes, LastByHash, DataByHash;
    updated := byHash;
    ghost var data, base := Data(txs), DataByHash(byHash);
    NothingDone(base, data);
    for i := 0 to |txs|
      invariant DataByHash(updated) == base - Hashes(data[..i])
      invariant updated.Values <= byHash.Values
    {
      assert data[..i + 1][..i] == data[..i];
      DeleteStep(updated, base, data[..i + 1], txs[i].tx.hash);
      updated := updated - {txs[i].tx.hash};
    }
    assert data[..|txs|] == data;
  }

  /** "txs" lists the values of "byHash", each once, in some order. */
  ghost predicate Lists(txs: seq<Tx>, byHash: map<string, Tx>) {
    && DistinctHashes(txs)
    && (forall h :: h in byHash ==> byHash[h].hash == h && byHash[h] in txs)
    && (forall x :: x in txs ==> x.hash in byHash && byHash[x.hash] == x)
  }

  /** The order in which Go ranges over a map is arbitrary. */
  method CollectValues(byHash: TxsByHash) returns (txs: seq<ApiTransaction>)
    requires forall h :: h in byHash ==> byHash[h].tx.hash == h
    ensures Lists(Data(txs), DataByHash(byHash))
    ensures forall t :: t in txs ==> t in byHash.Values
  {
    txs := [];
    var todo := byHash.Keys;
    while todo != {}
      invariant todo <= byHash.Keys
      invariant forall i :: 0 <= i < |txs| ==>
                  txs[i].tx.hash in byHash && byHash[txs[i].tx.hash] == txs[i] && txs[i].tx.hash !in todo
      invariant forall h :: h in byHash && h !in todo ==> byHash[h] in txs
      invariant forall i, j :: 0 <= i < j < |txs| ==> txs[i].tx.hash != txs[j].tx.hash
      decreases |todo|
    {
      var h :| h in todo;
      txs := txs + [byHash[h]];
      todo := todo - {h};
    }
    DataMembers(txs);
  }

  /** Two listings of the same map are the same up to order. */
  lemma {:induction false} ListingsArePermutations(a: seq<Tx>, b: seq<Tx>, byHash: map<string, Tx>)
    requires Lists(a, byHash) && Lists(b, byHash)
    ensures multiset(a) == multiset(b)
  {
    forall x ensures multiset(a)[x] == multiset(b)[x] {
      AtMostOnce(a, x);
      AtMostOnce(b, x);
    }
  }

  lemma {:induction false} AtMostOnce(txs: seq<Tx>, x: Tx)
    requires DistinctHashes(txs)
    ensures multiset(txs)[x] == if x in txs then 1 else 0
  {
    if txs != [] {
      var init, last := txs[..|txs| - 1], txs[|txs| - 1];
      AtMostOnce(init, x);
      assert txs == init + [last];
      forall i | 0 <= i < |init| ensures init[i] != last {
        assert txs[i].hash != txs[|txs| - 1].hash;
      }
    }
  }

  /** How the result of the gathering depends on the three blocks: the early return keeps the list as it is,
      the general path lists the computed map in some order. */
  ghost predicate IsEffectiveListing(self: nat, previous: Block, current: Block, next: Block, txs: seq<Tx>)
    requires Searchable(self, previous, current, next)
  {
    if !HasScheduled(previous) && !HasScheduled(current) then txs == AllTransactions(current)
    else Lists(txs, EffectiveByHash(self, previous, current, next))
  }

  lemma {:induction false} ListingHashes(self: nat, previous: Block, current: Block, next: Block, txs: seq<Tx>)
    requires Searchable(self, previous, current, next)
    requires IsEffectiveListing(self, previous, current, next, txs)
    ensures Hashes(txs) == EffectiveHashes(self, previous, current, next)
  {
    if !HasScheduled(previous) && !HasScheduled(current) {
      EarlyReturnAgrees(self, previous, current, next);
    } else {
      EffectiveByHashRefines(self, previous, current, next);
      var byHash := EffectiveByHash(self, previous, current, next);
      forall h | h in byHash ensures h in Hashes(txs) {
        assert byHash[h] in txs;
      }
    }
  }

  /** Terms (a), (b) and (c). */
  method WithoutEarlierEffects(
      selfShard: nat, previousBlock: ApiBlock, currentBlock: ApiBlock, txsInCurrentBlock: seq<ApiTransaction>)
    returns (byHash: TxsByHash)
    requires Data(txsInCurrentBlock) == AllTransactions(currentBlock.View())
    requires AcyclicBelowAll(selfShard, ScheduledTransactions(previousBlock.View()), Data(txsInCurrentBlock))
    ensures DataByHash(byHash) == KeptByHash(selfShard, previousBlock.View(), currentBlock.View())
    ensures byHash.Values <= set t | t in txsInCurrentBlock
  {
    hide AcyclicBelowAll, ImmediateResults, LastByHash, DataByHash, Hashes;
    var scheduledInPrevious := GatherScheduledTransactions(previousBlock);
    byHash := PutAll(map[], txsInCurrentBlock);
    NothingPutBefore(LastByHash(Data(txsInCurrentBlock)));
    if |scheduledInPrevious| > 0 {
      // Look behind, for results listed here whose effects were in the previous block.
      var previouslyExecuted :=
        FindImmediatelyExecutingContractResults(selfShard, scheduledInPrevious, txsInCurrentBlock);
      var txsInPreviousBlock := GatherAllTransactions(previousBlock);
      byHash := DeleteAll(byHash, txsInPreviousBlock);
      byHash := DeleteAll(byHash, previouslyExecuted);
    }
  }

  /** Term (d). */
  method WithEffectsAhead(selfShard: nat, currentBlock: ApiBlock, nextBlock: ApiBlock, kept: TxsByHash)
    returns (byHash: TxsByHash)
    requires AcyclicBelowAll(selfShard, ScheduledTransactions(currentBlock.View()), AllTransactions(nextBlock.View()))
    ensures DataByHash(byHash) ==
              if HasScheduled(currentBlock.View()) then
                DataByHash(kept)
                + LastByHash(ImmediateResults(selfShard, ScheduledTransactions(currentBlock.View()),
                                              AllTransactions(nextBlock.View())))
              else DataByHash(kept)
    ensures byHash.Values <= kept.Values + set t | t in ObjectsOf(nextBlock.miniblocks)
  {
    hide AcyclicBelowAll, ImmediateResults, LastByHash, DataByHash;
    byHash := kept;
    var scheduledInCurrent := GatherScheduledTransactions(currentBlock);
    if |scheduledInCurrent| > 0 {
      // Look ahead, for results listed in the next block whose effects are here.
      var txsInNextBlock := GatherAllTransactions(nextBlock);
      var currentlyExecuted :=
        FindImmediatelyExecutingContractResults(selfShard, scheduledInCurrent, txsInNextBlock);
      byHash := PutAll(byHash, currentlyExecuted);
    }
  }

  lemma {:induction false} NothingPutBefore(txs: map<string, Tx>)
    ensures DataByHash(map[]) + txs == txs
  {
  }

  lemma {:induction false} HeldUnderOwnHash(
      self: nat, previous: Block, current: Block, next: Block, byHash: TxsByHash)
    requires Searchable(self, previous, current, next)
    requires DataByHash(byHash) == EffectiveByHash(self, previous, current, next)
    ensures forall h :: h in byHash ==> byHash[h].tx.hash == h
  {
    EffectiveByHashRefines(self, previous, current, next);
    forall h | h in byHash ensures byHash[h].tx.hash == h {
      assert DataByHash(byHash)[h] == byHash[h].tx;
    }
  }

  method GatherEffectiveTransactions(
      selfShard: nat, previousBlock: ApiBlock, currentBlock: ApiBlock, nextBlock: ApiBlock)
    returns (effective: seq<ApiTransaction>)
    requires Searchable(selfShard, previousBlock.View(), currentBlock.View(), nextBlock.View())
    ensures IsEffectiveListing(selfShard, previousBlock.View(), currentBlock.View(), nextBlock.View(), Data(effective))
    ensures forall t :: t in effective ==>
              t in ObjectsOf(currentBlock.miniblocks) || t in ObjectsOf(nextBlock.miniblocks)
  {
    hide AcyclicBelowAll, ImmediateResults, LastByHash, DataByHash, Hashes, Lists, KeptByHash, AllTransactions,
         ObjectsOf;
    var txsInCurrentBlock := GatherAllTransactions(currentBlock);
    var scheduledInPrevious := GatherScheduledTransactions(previousBlock);
    var scheduledInCurrent := GatherScheduledTransactions(currentBlock);
    if |scheduledInPrevious| == 0 && |scheduledInCurrent| == 0 {
      // Nothing scheduled nearby: every transaction takes effect where it is listed.
      return txsInCurrentBlock;
    }
    var byHash := WithoutEarlierEffects(selfShard, previousBlock, currentBlock, txsInCurrentBlock);
    byHash := WithEffectsAhead(selfShard, currentBlock, nextBlock, byHash);
    HeldUnderOwnHash(selfShard, previousBlock.View(), currentBlock.View(), nextBlock.View(), byHash);
    effective := CollectValues(byHash);
  }

  // ---------------------------------------------------------------- the block is rewritten in place

  /** A miniblock that only holds things together; everything else about it is left empty. */
  function Artificial(txs: seq<Tx>, receipts: seq<Receipt>): Miniblock {
    Miniblock(MINIBLOCK_ARTIFICIAL, "", "", "", 0, 0, txs, receipts)
  }

  /** The block that stands for "current" once scheduled transactions are accounted for. */
  ghost predicate IsSimplified(previous: Block, current: Block, next: Block, simplified: Block)
    requires Searchable(current.shard, previous, current, next)
  {
    && |simplified.miniblocks| == 2
    && simplified == current.(miniblocks := simplified.miniblocks)
    && IsEffectiveListing(current.shard, previous, current, next, AllTransactions(simplified))
    && AllReceipts(simplified) == AllReceipts(current)
    && !HasScheduled(simplified)
    && simplified.miniblocks[0] == Artificial(simplified.miniblocks[0].transactions, [])
    && simplified.miniblocks[1] == Artificial([], simplified.miniblocks[1].receipts)
  }

  lemma {:induction false} TwoMiniblocks(a: Miniblock, b: Miniblock)
    requires a.processingType == b.processingType == ""
    ensures TransactionsOf([a, b]) == a.transactions + b.transactions
    ensures ReceiptsOf([a, b]) == a.receipts + b.receipts
    ensures ScheduledOf([a, b]) == []
  {
    assert [a, b][..1] == [a] && [a][..0] == [];
    assert TransactionsOf([a]) == a.transactions && ReceiptsOf([a]) == a.receipts && ScheduledOf([a]) == [];
  }

  lemma {:induction false} TwoObjects(a: ApiMiniblock, b: ApiMiniblock)
    ensures ObjectsOf([a, b]) == a.transactions + b.transactions
    ensures Views([a, b]) == [a.View(), b.View()]
  {
    assert [a, b][..1] == [a] && [a][..0] == [];
    assert ObjectsOf([a]) == a.transactions;
  }

  lemma {:induction false} SimplifiedByParts(previous: Block, current: Block, next: Block, a: Miniblock, b: Miniblock)
    requires Searchable(current.shard, previous, current, next)
    requires a == Artificial(a.transactions, []) && b == Artificial([], AllReceipts(current))
    requires IsEffectiveListing(current.shard, previous, current, next, a.transactions)
    ensures IsSimplified(previous, current, next, current.(miniblocks := [a, b]))
  {
    hide IsEffectiveListing;
    TwoMiniblocks(a, b);
    assert a.transactions + [] == a.transactions && [] + b.receipts == b.receipts;
  }

  /** The effective transactions in one artificial miniblock, the receipts of the block in another, and nothing else
      changed. */
  lemma {:induction false} SimplifiedExactly(previous: Block, current: Block, next: Block, simplified: Block)
    requires Searchable(current.shard, previous, current, next)
    ensures IsSimplified(previous, current, next, simplified) <==>
              exists txs ::
                && IsEffectiveListing(current.shard, previous, current, next, txs)
                && simplified == current.(miniblocks := [
                     Miniblock("Artificial", "", "", "", 0, 0, txs, []),
                     Miniblock("Artificial", "", "", "", 0, 0, [], ReceiptsOf(current.miniblocks))])
  {
    hide IsEffectiveListing, Searchable;
    if IsSimplified(previous, current, next, simplified) {
      var a, b := simplified.miniblocks[0], simplified.miniblocks[1];
      assert simplified.miniblocks == [a, b];
      TwoMiniblocks(a, b);
      assert a.transactions + [] == a.transactions && [] + b.receipts == b.receipts;
    }
    forall txs | IsEffectiveListing(current.shard, previous, current, next, txs)
      ensures IsSimplified(previous, current, next, current.(miniblocks := [
                Artificial(txs, []), Artificial([], AllReceipts(current))]))
    {
      SimplifiedByParts(previous, current, next, Artificial(txs, []), Artificial([], AllReceipts(current)));
    }
  }

  method DoSimplifyBlockWithScheduledTransactions(previousBlock: ApiBlock, block: ApiBlock, nextBlock: ApiBlock)
    requires Searchable(block.shard, previousBlock.View(), block.View(), nextBlock.View())
    modifies block
    ensures IsSimplified(old(previousBlock.View()), old(block.View()), old(nextBlock.View()), block.View())
    ensures forall m :: m in block.miniblocks ==> fresh(m)
    ensures forall t :: t in ObjectsOf(block.miniblocks) ==>
              t in old(ObjectsOf(block.miniblocks)) || t in old(ObjectsOf(nextBlock.miniblocks))
  {
    hide IsSimplified, IsEffectiveListing, Searchable, EffectiveHashes, ObjectsOf;
    ghost var previous, current, next := previousBlock.View(), block.View(), nextBlock.View();
    var txs := GatherEffectiveTransactions(block.shard, previousBlock, block, nextBlock);
    var receipts := GatherAllReceipts(block);
    var withTransactions := new ApiMiniblock(MINIBLOCK_ARTIFICIAL, "", "", "", 0, 0, txs, []);
    var withReceipts := new ApiMiniblock(MINIBLOCK_ARTIFICIAL, "", "", "", 0, 0, [], receipts);
    SimplifiedByParts(previous, current, next, withTransactions.View(), withReceipts.View());
    block.miniblocks := [withTransactions, withReceipts];
    TwoObjects(withTransactions, withReceipts);
  }
}
