/** The observer's data, as values: blocks, miniblocks, transactions, receipts and log events.
    Hashes, addresses and log topics are byte strings; amounts are natural numbers. */
module Chain {
  import opened Encoding

  datatype TxKind = Normal | Reward | Unsigned | Invalid | OtherKind(name: string)

  datatype ProcessingType =
    | RelayedV1 | BuiltInFunctionCall | MoveBalance | ContractInvoking | ContractDeployment
    | OtherProcessing(name: string)

  datatype EventKind =
    | SignalError | SCDeploy | TransferValueOnly
    | ESDTTransfer | ESDTNFTTransfer | MultiESDTNFTTransfer
    | ESDTLocalBurn | ESDTLocalMint | ESDTWipe
    | ESDTNFTCreate | ESDTNFTBurn | ESDTNFTAddQuantity
    | ClaimDeveloperRewards
    | OtherEvent(name: string)

  datatype Event = Event(kind: EventKind, address: string, topics: seq<Bytes>, data: Bytes)

  /** The inner transaction of a relayed (V1) one, as parsed from the payload. */
  datatype InnerTx = InnerTx(sender: Bytes, receiver: Bytes, value: nat)

  /** Everything about a transaction but its block nonce, which is the one field that is ever written. */
  datatype Tx = Tx(
    hash: string,
    previousHash: string,
    originalHash: string,
    kind: TxKind,
    typeOnSource: ProcessingType,
    typeOnDestination: ProcessingType,
    sourceShard: nat,
    destinationShard: nat,
    sender: string,
    receiver: string,
    value: nat,
    nonce: nat,
    epoch: nat,
    initiallyPaidFee: nat,
    isRefund: bool,
    data: Bytes,
    operation: string,
    events: seq<Event>,
    relayerAddress: string,
    relayerSignature: string,
    signature: string,
    guardianAddress: string,
    gasPrice: nat,
    gasLimit: nat,
    timestamp: nat,
    miniblockHash: string,
    miniblockType: string,
    originalSender: string,
    senderUsername: string,
    receiverUsername: string,
    inner: Option<InnerTx>)

  datatype Receipt = Receipt(txHash: string, sender: string, value: nat, data: string)

  datatype Miniblock = Miniblock(
    kind: string,
    hash: string,
    processingType: string,
    constructionState: string,
    sourceShard: nat,
    destinationShard: nat,
    transactions: seq<Tx>,
    receipts: seq<Receipt>)

  datatype Block = Block(
    nonce: nat,
    round: nat,
    epoch: nat,
    shard: nat,
    numTxs: nat,
    hash: string,
    prevBlockHash: string,
    stateRootHash: string,
    status: string,
    timestamp: nat,
    miniblocks: seq<Miniblock>)

  const PROCESSING_SCHEDULED := "Scheduled"
  const MINIBLOCK_ARTIFICIAL := "Artificial"

  function TransactionsOf(miniblocks: seq<Miniblock>): seq<Tx> {
    if miniblocks == [] then []
    else TransactionsOf(miniblocks[..|miniblocks| - 1]) + miniblocks[|miniblocks| - 1].transactions
  }

  function ScheduledOf(miniblocks: seq<Miniblock>): seq<Tx> {
    if miniblocks == [] then []
    else
      var last := miniblocks[|miniblocks| - 1];
      ScheduledOf(miniblocks[..|miniblocks| - 1])
      + (if last.processingType == PROCESSING_SCHEDULED then last.transactions else [])
  }

  function ReceiptsOf(miniblocks: seq<Miniblock>): seq<Receipt> {
    if miniblocks == [] then []
    else ReceiptsOf(miniblocks[..|miniblocks| - 1]) + miniblocks[|miniblocks| - 1].receipts
  }

  function AllTransactions(block: Block): seq<Tx> {
    TransactionsOf(block.miniblocks)
  }

  function ScheduledTransactions(block: Block): seq<Tx> {
    ScheduledOf(block.miniblocks)
  }

  function AllReceipts(block: Block): seq<Receipt> {
    ReceiptsOf(block.miniblocks)
  }

  function Hashes(txs: seq<Tx>): set<string> {
    set tx | tx in txs :: tx.hash
  }

  predicate DistinctHashes(txs: seq<Tx>) {
    forall i, j :: 0 <= i < j < |txs| ==> txs[i].hash != txs[j].hash
  }

  /** A transaction is scheduled in a block if and only if a miniblock that is processed as "Scheduled" lists it. */
  lemma {:induction false} ScheduledExactly(miniblocks: seq<Miniblock>, tx: Tx)
    ensures tx in ScheduledOf(miniblocks) <==>
              exists m :: m in miniblocks && m.processingType == "Scheduled" && tx in m.transactions
  {
    if miniblocks != [] {
      var init, last := miniblocks[..|miniblocks| - 1], miniblocks[|miniblocks| - 1];
      ScheduledExactly(init, tx);
      assert miniblocks == init + [last];
    }
  }

  lemma {:induction false} ListedExactly(miniblocks: seq<Miniblock>, tx: Tx, receipt: Receipt)
    ensures tx in TransactionsOf(miniblocks) <==> exists m :: m in miniblocks && tx in m.transactions
    ensures receipt in ReceiptsOf(miniblocks) <==> exists m :: m in miniblocks && receipt in m.receipts
  {
    if miniblocks != [] {
      var init, last := miniblocks[..|miniblocks| - 1], miniblocks[|miniblocks| - 1];
      ListedExactly(init, tx, receipt);
      assert miniblocks == init + [last];
    }
  }
}
