/** The observer's data as the provider holds it: blocks, miniblocks and transactions on the heap.
    Cached blocks, their copies and the lists handed to the services share transaction objects.
    Fields that nothing assigns after construction are constants. */
module BlockObjects {
  import opened Chain

  class ApiTransaction {
    const tx: Tx
    var blockNonce: nat

    constructor (tx: Tx)
      ensures this.tx == tx
    {
      this.tx := tx;
      blockNonce := 0;
    }
  }

  class ApiMiniblock {
    const kind: string
    const hash: string
    const processingType: string
    const constructionState: string
    const sourceShard: nat
    const destinationShard: nat
    const transactions: seq<ApiTransaction>
    const receipts: seq<Receipt>

    ghost function View(): Miniblock {
      Miniblock(kind, hash, processingType, constructionState, sourceShard, destinationShard,
                Data(transactions), receipts)
    }

    constructor (kind: string, hash: string, processingType: string, constructionState: string,
                 sourceShard: nat, destinationShard: nat,
                 transactions: seq<ApiTransaction>, receipts: seq<Receipt>)
      ensures View() == Miniblock(kind, hash, processingType, constructionState, sourceShard, destinationShard,
                                  Data(transactions), receipts)
      ensures this.transactions == transactions
    {
      this.kind := kind;
      this.hash := hash;
      this.processingType := processingType;
      this.constructionState := constructionState;
      this.sourceShard := sourceShard;
      this.destinationShard := destinationShard;
      this.transactions := transactions;
      this.receipts := receipts;
    }
  }

  class ApiBlock {
    const nonce: nat
    const round: nat
    const epoch: nat
    const shard: nat
    const numTxs: nat
    const hash: string
    const prevBlockHash: string
    const stateRootHash: string
    const status: string
    const timestamp: nat
    var miniblocks: seq<ApiMiniblock>

    ghost function View(): Block
      reads this
    {
      Block(nonce, round, epoch, shard, numTxs, hash, prevBlockHash, stateRootHash, status, timestamp,
            Views(miniblocks))
    }

    constructor (header: Block, miniblocks: seq<ApiMiniblock>)
      ensures View() == header.(miniblocks := Views(miniblocks))
      ensures this.miniblocks == miniblocks
    {
      nonce := header.nonce;
      round := header.round;
      epoch := header.epoch;
      shard := header.shard;
      numTxs := header.numTxs;
      hash := header.hash;
      prevBlockHash := header.prevBlockHash;
      stateRootHash := header.stateRootHash;
      status := header.status;
      timestamp := header.timestamp;
      this.miniblocks := miniblocks;
    }
  }

  function Data(txs: seq<ApiTransaction>): (data: seq<Tx>)
    ensures |data| == |txs|
    ensures forall i :: 0 <= i < |txs| ==> data[i] == txs[i].tx
  {
    seq(|txs|, i requires 0 <= i < |txs| => txs[i].tx)
  }

  ghost function Views(miniblocks: seq<ApiMiniblock>): (views: seq<Miniblock>)
    ensures |views| == |miniblocks|
    ensures forall i :: 0 <= i < |miniblocks| ==> views[i] == miniblocks[i].View()
  {
    seq(|miniblocks|, i requires 0 <= i < |miniblocks| => miniblocks[i].View())
  }

  /** The transaction objects of a list of miniblocks, in order. */
  ghost function ObjectsOf(miniblocks: seq<ApiMiniblock>): seq<ApiTransaction>
  {
    if miniblocks == [] then []
    else ObjectsOf(miniblocks[..|miniblocks| - 1]) + miniblocks[|miniblocks| - 1].transactions
  }

  ghost function ScheduledObjectsOf(miniblocks: seq<ApiMiniblock>): seq<ApiTransaction>
  {
    if miniblocks == [] then []
    else
      var last := miniblocks[|miniblocks| - 1];
      ScheduledObjectsOf(miniblocks[..|miniblocks| - 1])
      + (if last.processingType == PROCESSING_SCHEDULED then last.transactions else [])
  }

  lemma {:induction false} ObjectsHoldTransactions(miniblocks: seq<ApiMiniblock>)
    ensures Data(ObjectsOf(miniblocks)) == TransactionsOf(Views(miniblocks))
    ensures Data(ScheduledObjectsOf(miniblocks)) == ScheduledOf(Views(miniblocks))
    ensures forall t :: t in ScheduledObjectsOf(miniblocks) ==> t in ObjectsOf(miniblocks)
  {
    if miniblocks != [] {
      var init, last := miniblocks[..|miniblocks| - 1], miniblocks[|miniblocks| - 1];
      ObjectsHoldTransactions(init);
      assert Views(miniblocks)[..|miniblocks| - 1] == Views(init);
      DataConcat(ObjectsOf(init), last.transactions);
      if last.processingType == PROCESSING_SCHEDULED {
        DataConcat(ScheduledObjectsOf(init), last.transactions);
      } else {
        assert ScheduledObjectsOf(init) + [] == ScheduledObjectsOf(init);
      }
    }
  }

  lemma {:induction false} ObjectsOfLast(init: seq<ApiMiniblock>, last: ApiMiniblock)
    ensures ObjectsOf(init + [last]) == ObjectsOf(init) + last.transactions
  {
    assert (init + [last])[..|init|] == init;
  }

  lemma {:induction false} ReceiptsOfLast(init: seq<Miniblock>, last: Miniblock)
    ensures ReceiptsOf(init + [last]) == ReceiptsOf(init) + last.receipts
  {
    assert (init + [last])[..|init|] == init;
  }

  lemma {:induction false} DataConcat(a: seq<ApiTransaction>, b: seq<ApiTransaction>)
    ensures Data(a + b) == Data(a) + Data(b)
  {
  }

  lemma {:induction false} DataMembers(txs: seq<ApiTransaction>)
    ensures forall t :: t in txs ==> t.tx in Data(txs)
    ensures forall x :: x in Data(txs) ==> exists t :: t in txs && t.tx == x
  {
    forall t | t in txs ensures t.tx in Data(txs) {
      var i :| 0 <= i < |txs| && txs[i] == t;
      assert Data(txs)[i] == t.tx;
    }
    forall x | x in Data(txs) ensures exists t :: t in txs && t.tx == x {
      var i :| 0 <= i < |txs| && Data(txs)[i] == x;
      assert txs[i] in txs && txs[i].tx == x;
    }
  }
}
