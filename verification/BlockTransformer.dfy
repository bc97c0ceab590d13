/** The transformation of a block as the service runs it, on shared transaction objects and on operation
    objects of its own (server/services/transactionsTransformer.go, server/services/transactionFilters.go). */
module BlockTransformer {
  import opened Encoding
  import opened Chain
  import opened Network
  import opened Sequences
  import opened Events
  import opened Operations
  import opened Transformer
  import opened BlockObjects
  import Objects = OperationObjects

  // ---------------------------------------------------------------- filters on transactions

  method GatherInvalidHashes(txs: seq<ApiTransaction>) returns (invalid: set<string>)
    ensures invalid == InvalidHashes(BlockObjects.Data(txs))
  {
    invalid := {};
    ghost var data := BlockObjects.Data(txs);
    for i := 0 to |txs|
      invariant invalid == InvalidHashes(data[..i])
    {
      assert data[..i + 1] == data[..i] + [data[i]];
      if txs[i].tx.kind == Invalid {
        invalid := invalid + {txs[i].tx.hash};
      }
    }
    assert data[..|txs|] == data;
  }

  method FilterOutResultsOfInvalid(txs: seq<ApiTransaction>) returns (filtered: seq<ApiTransaction>)
    ensures BlockObjects.Data(filtered) == WithoutResultsOfInvalid(BlockObjects.Data(txs))
  {
    var invalid := GatherInvalidHashes(txs);
    ghost var data := BlockObjects.Data(txs);
    filtered := [];
    for i := 0 to |txs|
      invariant BlockObjects.Data(filtered) == Filter(KeepUnlessResultOfInvalid(invalid), data[..i])
    {
      assert data[..i + 1][..i] == data[..i];
      var isContractResult := txs[i].tx.kind == Unsigned;
      var isResultOfInvalid := txs[i].tx.originalHash in invalid;
      if isContractResult && isResultOfInvalid {
        continue;
      }
      filtered := filtered + [txs[i]];
    }
    assert data[..|txs|] == data;
  }

  method FilterOutRelayedAlreadyInvalid(txs: seq<ApiTransaction>) returns (filtered: seq<ApiTransaction>)
    ensures BlockObjects.Data(filtered) == WithoutRelayedAlreadyInvalid(BlockObjects.Data(txs))
  {
    var invalid := GatherInvalidHashes(txs);
    ghost var data := BlockObjects.Data(txs);
    filtered := [];
    for i := 0 to |txs|
      invariant BlockObjects.Data(filtered) == Filter(KeepUnlessRelayedAndInvalid(invalid), data[..i])
    {
      assert data[..i + 1][..i] == data[..i];
      var alreadyHeld := txs[i].tx.hash in invalid;
      if IsRelayedV1Transaction(txs[i].tx) && alreadyHeld {
        continue;
      }
      filtered := filtered + [txs[i]];
    }
    assert data[..|txs|] == data;
  }

  // ---------------------------------------------------------------- one transaction

  /** Operations of a list of events, appended one event after the other. */
  method AppendOperations<E>(operations: seq<Op>, events: seq<E>, operationsOf: E -> seq<Op>)
    returns (extended: seq<Op>)
    ensures extended == operations + FlatMap(operationsOf, events)
  {
    extended := operations;
    for i := 0 to |events|
      invariant extended == operations + FlatMap(operationsOf, events[..i])
    {
      assert events[..i + 1][..i] == events[..i];
      extended := extended + operationsOf(events[i]);
    }
    assert events[..|events|] == events;
  }

  method ExtractTransfersValueOnly(net: Network, tx: Tx) returns (typedEvents: Option<seq<EventTransferValueOnly>>)
    ensures typedEvents == TransfersValueOnly(net, tx)
  {
    hide MapAll, Somes, EffectiveTransferValueOnly, FindMany;
    if !net.IsReleaseSiriusActive(tx.epoch) {
      return Some([]);
    }
    var rawEvents := FindManyEventsByIdentifier(tx, TransferValueOnly);
    ghost var decide := (e: Event) => EffectiveTransferValueOnly(net, e);
    MapAllElements(decide, rawEvents);
    var found: seq<EventTransferValueOnly> := [];
    ghost var decided: seq<Option<EventTransferValueOnly>> := [];
    SomesOfNone<EventTransferValueOnly>();
    for i := 0 to |rawEvents|
      invariant |decided| == i
      invariant forall k :: 0 <= k < i ==> decide(rawEvents[k]) == Some(decided[k])
      invariant found == Somes(decided)
    {
      var typedEvent := EffectiveTransferValueOnly(net, rawEvents[i]);
      if typedEvent.None? {
        assert decide(rawEvents[i]).None?;
        return None;
      }
      SomesLast(decided, typedEvent.value);
      if typedEvent.value.Some? {
        found := found + [typedEvent.value.value];
      }
      decided := decided + [typedEvent.value];
    }
    assert decided == MapAll(decide, rawEvents).value;
    return Some(found);
  }

  lemma {:induction false} SomesOfNone<T>()
    ensures Somes<T>([]) == []
  {
  }

  lemma {:induction false} SomesLast<T>(options: seq<Option<T>>, last: Option<T>)
    ensures Somes(options + [last]) == if last.Some? then Somes(options) + [last.value] else Somes(options)
  {
    assert (options + [last])[..|options|] == options;
  }

  /** The typed events of a transaction, kind after kind; None as soon as one is not recognised. */
  method ExtractAllEvents(net: Network, tx: Tx) returns (events: Option<TypedEvents>)
    ensures events == AllEvents(net, tx)
  {
    hide MapAll, Transfers, TransfersValueOnly;
    var deploys := ExtractDeploys(net, tx);
    if deploys.None? { return None; }
    var transfersValueOnly := ExtractTransfersValueOnly(net, tx);
    if transfersValueOnly.None? { return None; }
    var transfers := ExtractEventsESDTOrESDTNFTTransfers(net, tx);
    if transfers.None? { return None; }
    var burns := ExtractOneSided(tx, ESDTLocalBurn, 3);
    if burns.None? { return None; }
    var mints := ExtractOneSided(tx, ESDTLocalMint, 3);
    if mints.None? { return None; }
    var wipes := ExtractWipes(net, tx);
    if wipes.None? { return None; }
    var creates := ExtractOneSided(tx, ESDTNFTCreate, 4);
    if creates.None? { return None; }
    var nftBurns := ExtractOneSided(tx, ESDTNFTBurn, 3);
    if nftBurns.None? { return None; }
    var additions := ExtractOneSided(tx, ESDTNFTAddQuantity, 3);
    if additions.None? { return None; }
    var rewards := ExtractClaims(net, tx);
    if rewards.None? { return None; }
    return Some(TypedEvents(deploys.value, transfersValueOnly.value, transfers.value, burns.value, mints.value,
                            wipes.value, creates.value, nftBurns.value, additions.value, rewards.value));
  }

  /** Adds the operations that a transaction's events stand for. */
  method AddOperationsGivenTransactionEvents(net: Network, tx: Tx, operations: seq<Op>)
    returns (extended: Option<seq<Op>>)
    ensures extended ==
              match EventOperations(net, tx)
              case None => None
              case Some(ofEvents) => Some(operations + ofEvents)
  {
    hide FlatMap, AllEvents, HasAnySignalError;
    if HasAnySignalError(tx) {
      assert operations + [] == operations;
      return Some(operations);
    }
    var extracted := ExtractAllEvents(net, tx);
    if extracted.None? {
      return None;
    }
    var events := extracted.value;
    var ops := AppendOperations([], events.deploys, DeployOperations(net, tx));
    assert ops == FlatMap(DeployOperations(net, tx), events.deploys);
    ops := AppendOperations(ops, events.transfersValueOnly, ValueOnlyOperations(net));
    ops := AppendOperations(ops, events.transfers, TransferOperations(net));
    ops := AppendOperations(ops, events.burns, SupplyOperations(net, -1));
    ops := AppendOperations(ops, events.mints, SupplyOperations(net, 1));
    ops := AppendOperations(ops, events.wipes, SupplyOperations(net, -1));
    ops := AppendOperations(ops, events.creates, SupplyOperations(net, 1));
    ops := AppendOperations(ops, events.nftBurns, SupplyOperations(net, -1));
    ops := AppendOperations(ops, events.additions, SupplyOperations(net, 1));
    ops := AppendOperations(ops, events.rewards, RewardsOperations(net, tx));
    return Some(operations + ops);
  }

  method PutText(metadata: Metadata, key: MetadataKey, text: string) returns (extended: Metadata)
    ensures extended == metadata + OptionalText(key, text)
  {
    extended := metadata;
    if |text| > 0 {
      extended := extended[key := Text(text)];
    }
  }

  method PutNumber(metadata: Metadata, key: MetadataKey, number: nat) returns (extended: Metadata)
    ensures extended == metadata + OptionalNumber(key, number)
  {
    extended := metadata;
    if number > 0 {
      extended := extended[key := Number(number)];
    }
  }

  /** Entry by entry, from the shared transaction object, whose block nonce is not among the entries. */
  method ExtractTransactionMetadata(tx: ApiTransaction) returns (metadata: Metadata)
    ensures metadata == TransactionMetadata(tx.tx)
  {
    hide BasicMetadata, OptionalText, OptionalNumber;
    var t := tx.tx;
    metadata := BasicMetadata(t);
    metadata := PutText(metadata, RelayerKey, t.relayerAddress);
    metadata := PutText(metadata, OriginalSenderKey, t.originalSender);
    metadata := PutText(metadata, SenderUsernameKey, t.senderUsername);
    metadata := PutText(metadata, ReceiverUsernameKey, t.receiverUsername);
    metadata := PutText(metadata, OriginalTransactionKey, t.originalHash);
    metadata := PutText(metadata, PreviousTransactionKey, t.previousHash);
    metadata := metadata + OptionalData(DataKey, t.data);
    metadata := PutNumber(metadata, GasPriceKey, t.gasPrice);
    metadata := PutNumber(metadata, GasLimitKey, t.gasLimit);
  }

  method NormalTxToRosetta(net: Network, tx: ApiTransaction) returns (operations: Option<seq<Op>>)
    ensures operations == NormalOperations(net, tx.tx)
  {
    var t := tx.tx;
    var ops: seq<Op> := [];
    var transfersValue := t.value != 0;
    if net.IsReleaseSiriusActive(t.epoch) {
      transfersValue :=
        transfersValue && !IsContractDeploymentWithSignalErrorOrIntrashardContractCallWithSignalError(t);
    }
    if transfersValue {
      ops := ops + [NewOp(OpTransfer, t.sender, 0 - t.value, net.nativeCurrency)];
      ops := ops + [NewOp(OpTransfer, t.receiver, t.value, net.nativeCurrency)];
      assert ops == Move(OpTransfer, t.sender, t.receiver, t.value, net.nativeCurrency);
    }
    ops := ops + [NewOp(OpFee, FeePayer(t), 0 - t.initiallyPaidFee, net.nativeCurrency)];
    var inner := InnerOperations(net, t);
    if inner.None? {
      return None;
    }
    return Some(ops + inner.value);
  }

  /** A contract result: a refund without effect, a refund, developer rewards, or a transfer, of which only the last
      has metadata. */
  method UnsignedTxToRosetta(net: Network, scr: ApiTransaction, txsInBlock: seq<ApiTransaction>)
    returns (operations: seq<Op>, metadata: Metadata)
    requires scr.tx.kind == Unsigned
    ensures operations == UnsignedOperations(net, scr.tx, BlockObjects.Data(txsInBlock))
    ensures metadata == MetadataOf(net, scr.tx, BlockObjects.Data(txsInBlock))
  {
    hide TransactionMetadata, HoldsRewardsOfClaimDeveloperRewards, IsIneffectiveRefund;
    var t := scr.tx;
    if IsIneffectiveRefund(net, t) {
      return [], map[];
    }
    if t.isRefund {
      return [NewOp(OpFeeRefundAsScResult, t.receiver, t.value, net.nativeCurrency)], map[];
    }
    if !net.IsReleaseSpicaActive(t.epoch) {
      if HoldsRewardsOfClaimDeveloperRewards(t, BlockObjects.Data(txsInBlock)) {
        return [NewOp(OpDeveloperRewardsAsScResult, t.receiver, t.value, net.nativeCurrency)], map[];
      }
    }
    metadata := ExtractTransactionMetadata(scr);
    operations := [NewOp(OpScResult, t.sender, 0 - t.value, net.nativeCurrency),
                   NewOp(OpScResult, t.receiver, t.value, net.nativeCurrency)];
  }

  /** The object comes with the block nonce that was written into it last; the result does not depend on it. */
  method ConvertTx(net: Network, tx: ApiTransaction, txsInBlock: seq<ApiTransaction>)
    returns (rosettaTx: Option<RosettaTx>)
    ensures rosettaTx == TxToRosettaTx(net, BlockObjects.Data(txsInBlock))(tx.tx)
  {
    hide NormalOperations, UnsignedOperations, InvalidOperations, RewardOperations, EventOperations,
         TransactionMetadata, HoldsRewardsOfClaimDeveloperRewards, IsIneffectiveRefund;
    var own: Option<seq<Op>>;
    var metadata: Metadata := map[];
    match tx.tx.kind {
      case Normal =>
        own := NormalTxToRosetta(net, tx);
        metadata := ExtractTransactionMetadata(tx);
      case Reward => own := Some(RewardOperations(net, tx.tx));
      case Unsigned =>
        var ops;
        ops, metadata := UnsignedTxToRosetta(net, tx, txsInBlock);
        own := Some(ops);
      case Invalid =>
        own := Some(InvalidOperations(net, tx.tx));
        metadata := ExtractTransactionMetadata(tx);
      case OtherKind(_) => own := None;
    }
    if own.None? {
      return None;
    }
    var operations := AddOperationsGivenTransactionEvents(net, tx.tx, own.value);
    if operations.None? {
      return None;
    }
    return Some(RosettaTx(tx.tx.hash, operations.value, metadata));
  }

  // ---------------------------------------------------------------- all transactions of a block

  method ConvertAll(net: Network, txs: seq<ApiTransaction>) returns (rosettaTxs: Option<seq<RosettaTx>>)
    ensures rosettaTxs == MapAll(TxToRosettaTx(net, BlockObjects.Data(txs)), BlockObjects.Data(txs))
  {
    hide MapAll, TxToRosettaTx;
    ghost var data := BlockObjects.Data(txs);
    ghost var convert := TxToRosettaTx(net, data);
    MapAllElements(convert, data);
    var converted: seq<RosettaTx> := [];
    for i := 0 to |txs|
      invariant |converted| == i
      invariant forall k :: 0 <= k < i ==> convert(data[k]) == Some(converted[k])
    {
      var rosettaTx := ConvertTx(net, txs[i], txs);
      if rosettaTx.None? {
        assert convert(data[i]).None?;
        return None;
      }
      converted := converted + [rosettaTx.value];
    }
    assert converted == MapAll(convert, data).value;
    return Some(converted);
  }

  method ConvertRefundReceipts(net: Network, receipts: seq<Receipt>) returns (rosettaTxs: Option<seq<RosettaTx>>)
    ensures rosettaTxs == MapAll(RefundReceiptToRosettaTx(net), Filter(IsRefundReceipt(), receipts))
  {
    ghost var convert, all := RefundReceiptToRosettaTx(net), Filter(IsRefundReceipt(), receipts);
    MapAllElements(convert, all);
    var converted: seq<RosettaTx> := [];
    for i := 0 to |receipts|
      invariant MapAll(convert, Filter(IsRefundReceipt(), receipts[..i])) == Some(converted)
    {
      assert receipts[..i + 1][..i] == receipts[..i];
      ghost var before, after := Filter(IsRefundReceipt(), receipts[..i]), Filter(IsRefundReceipt(), receipts[..i + 1]);
      if receipts[i].data == REFUND_GAS_MESSAGE {
        assert after == before + [receipts[i]];
        MapAllAppend(convert, before, receipts[i]);
        var rosettaTx := RefundReceiptToRosettaTx(net)(receipts[i]);
        if rosettaTx.None? {
          RefundIsListed(receipts, i);
          assert convert(receipts[i]).None?;
          return None;
        }
        converted := converted + [rosettaTx.value];
      } else {
        assert after == before;
      }
    }
    assert receipts[..|receipts|] == receipts;
    return Some(converted);
  }

  lemma {:induction false} RefundIsListed(receipts: seq<Receipt>, i: nat)
    requires i < |receipts| && receipts[i].data == REFUND_GAS_MESSAGE
    ensures receipts[i] in Filter(IsRefundReceipt(), receipts)
  {
    var n := |receipts| - 1;
    if i < n {
      RefundIsListed(receipts[..n], i);
    }
  }

  // ---------------------------------------------------------------- objects, filtered in place

  /** No Rosetta transaction or operation object occurs twice. */
  ghost predicate Separated(rosettaTxs: seq<Objects.RosettaTransaction>)
    reads rosettaTxs
  {
    && (forall i, j :: 0 <= i < j < |rosettaTxs| ==> rosettaTxs[i] != rosettaTxs[j])
    && (forall i :: 0 <= i < |rosettaTxs| ==> Objects.Distinct(rosettaTxs[i].operations))
    && (forall i, j, o :: 0 <= i < |rosettaTxs| && 0 <= j < |rosettaTxs| && i != j && o in rosettaTxs[i].operations ==>
          o !in rosettaTxs[j].operations)
  }

  method NewTransaction(value: RosettaTx) returns (rosettaTx: Objects.RosettaTransaction)
    ensures fresh(rosettaTx) && rosettaTx.View() == value && Objects.Distinct(rosettaTx.operations)
    ensures forall j :: 0 <= j < |rosettaTx.operations| ==> fresh(rosettaTx.operations[j])
  {
    var operations := Objects.NewOperations(value.operations);
    rosettaTx := new Objects.RosettaTransaction(value.hash, operations, value.metadata);
  }

  method NewTransactions(values: seq<RosettaTx>) returns (rosettaTxs: seq<Objects.RosettaTransaction>)
    ensures |rosettaTxs| == |values| && Separated(rosettaTxs)
    ensures forall i :: 0 <= i < |values| ==> rosettaTxs[i].View() == values[i]
    ensures forall i :: 0 <= i < |rosettaTxs| ==> fresh(rosettaTxs[i])
    ensures forall i, j :: 0 <= i < |rosettaTxs| && 0 <= j < |rosettaTxs[i].operations| ==>
              fresh(rosettaTxs[i].operations[j])
  {
    hide Objects.RosettaTransaction.View, Objects.Distinct;
    if values == [] {
      return [];
    }
    var n := |values| - 1;
    var init := NewTransactions(values[..n]);
    label Before:
    var last := NewTransaction(values[n]);
    forall k | 0 <= k < n
      ensures init[k].operations == old@Before(init[k].operations) && init[k].View() == values[k]
    {
    }
    assert Separated(init);
    assert forall k, o :: 0 <= k < n && o in init[k].operations ==> o !in last.operations;
    rosettaTxs := init + [last];
  }

  method FinalizeAll(net: Network, rosettaTxs: seq<Objects.RosettaTransaction>, ghost values: seq<RosettaTx>)
    returns (ok: bool)
    requires |rosettaTxs| == |values| && Separated(rosettaTxs)
    requires forall i :: 0 <= i < |values| ==> rosettaTxs[i].View() == values[i]
    modifies rosettaTxs, set i, o | 0 <= i < |rosettaTxs| && o in rosettaTxs[i].operations :: o
    ensures ok <==> MapAll(FinalizeTx(net), values).Some?
    ensures ok ==> forall i :: 0 <= i < |values| ==> FinalizeTx(net)(values[i]) == Some(rosettaTxs[i].View())
  {
    hide Finalize, MapAll, Objects.RosettaTransaction.View, Objects.Distinct;
    MapAllElements(FinalizeTx(net), values);
    ghost var territories := Territories(rosettaTxs);
    for i := 0 to |rosettaTxs|
      invariant forall k :: 0 <= k < |rosettaTxs| ==> Objects.Distinct(rosettaTxs[k].operations)
      invariant forall k, j :: 0 <= k < |rosettaTxs| && 0 <= j < |rosettaTxs[k].operations| ==>
                  rosettaTxs[k].operations[j] in territories[k]
      invariant forall k :: 0 <= k < i ==> FinalizeTx(net)(values[k]) == Some(rosettaTxs[k].View())
      invariant forall k :: i <= k < |rosettaTxs| ==> rosettaTxs[k].View() == values[k]
    {
      label Before:
      var done := rosettaTxs[i].FinalizeInPlace(net);
      if !done {
        assert FinalizeTx(net)(values[i]).None?;
        return false;
      }
      forall k | 0 <= k < |rosettaTxs| && k != i
        ensures rosettaTxs[k].operations == old@Before(rosettaTxs[k].operations)
        ensures rosettaTxs[k].View() == old@Before(rosettaTxs[k].View())
      {
        assert rosettaTxs[k] != rosettaTxs[i];
        assert territories[k] !! territories[i];
      }
    }
    return true;
  }

  ghost function Territories(rosettaTxs: seq<Objects.RosettaTransaction>): (territories: seq<set<Objects.Operation>>)
    reads rosettaTxs
    ensures |territories| == |rosettaTxs|
    ensures forall i :: 0 <= i < |rosettaTxs| ==> territories[i] == set o | o in rosettaTxs[i].operations
  {
    seq(|rosettaTxs|, i requires 0 <= i < |rosettaTxs| reads rosettaTxs => set o | o in rosettaTxs[i].operations)
  }

  method FilterOutRosettaTransactionsWithNoOperations(
      rosettaTxs: seq<Objects.RosettaTransaction>, ghost values: seq<RosettaTx>)
    returns (kept: seq<Objects.RosettaTransaction>)
    requires |rosettaTxs| == |values|
    requires forall i :: 0 <= i < |values| ==> rosettaTxs[i].View() == values[i]
    ensures |kept| == |Filter(HasOperations(), values)|
    ensures forall i :: 0 <= i < |kept| ==> kept[i].View() == Filter(HasOperations(), values)[i]
  {
    kept := [];
    for i := 0 to |rosettaTxs|
      invariant |kept| == |Filter(HasOperations(), values[..i])|
      invariant forall k :: 0 <= k < |kept| ==> kept[k].View() == Filter(HasOperations(), values[..i])[k]
    {
      assert values[..i + 1][..i] == values[..i];
      assert rosettaTxs[i].View() == values[i];
      if |rosettaTxs[i].operations| > 0 {
        kept := kept + [rosettaTxs[i]];
      }
    }
    assert values[..|values|] == values;
  }

  // ---------------------------------------------------------------- the whole pipeline

  /** Writes the block nonce into the (shared) transactions, and gathers them with the receipts. */
  method StampAndGather(block: ApiBlock) returns (txs: seq<ApiTransaction>, receipts: seq<Receipt>)
    modifies ObjectsOf(block.miniblocks)
    ensures BlockObjects.Data(txs) == AllTransactions(block.View())
    ensures receipts == AllReceipts(block.View())
    ensures forall k :: 0 <= k < |ObjectsOf(block.miniblocks)| ==>
              ObjectsOf(block.miniblocks)[k].blockNonce == block.nonce
  {
    hide ObjectsOf, ReceiptsOf;
    txs, receipts := [], [];
    ghost var views := Views(block.miniblocks);
    NothingGathered(block.miniblocks, views);
    for i := 0 to |block.miniblocks|
      invariant txs == ObjectsOf(block.miniblocks[..i])
      invariant receipts == ReceiptsOf(views[..i])
      invariant forall k :: 0 <= k < |txs| ==> txs[k].blockNonce == block.nonce
    {
      var transactions := block.miniblocks[i].transactions;
      assert block.miniblocks[..i + 1] == block.miniblocks[..i] + [block.miniblocks[i]];
      assert views[..i + 1] == views[..i] + [views[i]];
      ObjectsOfLast(block.miniblocks[..i], block.miniblocks[i]);
      ReceiptsOfLast(views[..i], views[i]);
      HoldsObjects(block.miniblocks, i);
      for j := 0 to |transactions|
        invariant txs == ObjectsOf(block.miniblocks[..i]) + transactions[..j]
        invariant forall k :: 0 <= k < |txs| ==> txs[k].blockNonce == block.nonce
      {
        transactions[j].blockNonce := block.nonce;
        txs := txs + [transactions[j]];
      }
      for j := 0 to |block.miniblocks[i].receipts|
        invariant receipts == ReceiptsOf(views[..i]) + block.miniblocks[i].receipts[..j]
      {
        receipts := receipts + [block.miniblocks[i].receipts[j]];
      }
    }
    assert block.miniblocks[..|block.miniblocks|] == block.miniblocks && views[..|views|] == views;
    ObjectsHoldTransactions(block.miniblocks);
  }

  lemma {:induction false} NothingGathered(miniblocks: seq<ApiMiniblock>, views: seq<Miniblock>)
    ensures ObjectsOf(miniblocks[..0]) == [] && ReceiptsOf(views[..0]) == []
  {
  }

  lemma {:induction false} HoldsObjects(miniblocks: seq<ApiMiniblock>, i: nat)
    requires i < |miniblocks|
    ensures forall j :: 0 <= j < |miniblocks[i].transactions| ==> miniblocks[i].transactions[j] in ObjectsOf(miniblocks)
  {
    if i < |miniblocks| - 1 {
      HoldsObjects(miniblocks[..|miniblocks| - 1], i);
    }
  }

  /** The emitted transactions only depend on what the block lists, not on the block nonces that the shared
      transaction objects held before; and only these nonces are written. */
  method TransformBlockTxs(net: Network, block: ApiBlock) returns (rosettaTxs: Option<seq<Objects.RosettaTransaction>>)
    modifies ObjectsOf(block.miniblocks)
    ensures var served := TransformBlock(net, AllTransactions(block.View()), AllReceipts(block.View()));
      && (rosettaTxs.Some? <==> served.Some?)
      && (served.Some? ==>
            |rosettaTxs.value| == |served.value|
            && forall i :: 0 <= i < |served.value| ==> rosettaTxs.value[i].View() == served.value[i])
  {
    hide MapAll, Filter, FinalizeTx, TxToRosettaTx, AllTransactions, AllReceipts, ObjectsOf;
    var txs, receipts := StampAndGather(block);
    txs := FilterOutResultsOfInvalid(txs);
    txs := FilterOutRelayedAlreadyInvalid(txs);
    var ofTxs := ConvertAll(net, txs);
    if ofTxs.None? {
      return None;
    }
    var ofReceipts := ConvertRefundReceipts(net, receipts);
    if ofReceipts.None? {
      return None;
    }
    ghost var generated := ofTxs.value + ofReceipts.value;
    var objects := NewTransactions(ofTxs.value + ofReceipts.value);
    MapAllElements(FinalizeTx(net), generated);
    var ok := FinalizeAll(net, objects, generated);
    if !ok {
      return None;
    }
    ghost var finalized := MapAll(FinalizeTx(net), generated).value;
    assert forall i :: 0 <= i < |generated| ==> FinalizeTx(net)(generated[i]) == Some(finalized[i]);
    var kept := FilterOutRosettaTransactionsWithNoOperations(objects, finalized);
    return Some(kept);
  }
}
