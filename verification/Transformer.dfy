/** From transactions, log events and receipts to balance-changing operations, on values
    (server/services/transactionsTransformer.go, transactionsFeaturesDetector.go, transactionFilters.go). */
module Transformer {
  import opened Encoding
  import opened Chain
  import opened Network
  import opened Sequences
  import opened Events
  import opened Operations

  const REFUND_GAS_MESSAGE := "refundedGas"
  const SYSTEM_CONTRACT_DEPLOY_ADDRESS := "erd1qqqqqqqqqqqqqqqqqqqqqqqqqqqqqqqqqqqqqqqqqqqqqqqqqqqq6gq4hu"
  const NATIVE_AS_ESDT_IDENTIFIER: Bytes := "EGLD-000000"
  const CLAIM_DEVELOPER_REWARDS := "ClaimDeveloperRewards"

  // ---------------------------------------------------------------- features

  predicate IsRelayedV1Transaction(tx: Tx) {
    tx.kind == Normal && tx.typeOnSource == RelayedV1 && tx.typeOnDestination == RelayedV1
  }

  predicate IsContractDeploymentWithSignalError(tx: Tx) {
    && tx.typeOnSource == ContractDeployment && tx.typeOnDestination == ContractDeployment
    && HasAnySignalError(tx)
  }

  predicate IsContractCallWithSignalError(tx: Tx) {
    && tx.typeOnSource == ContractInvoking && tx.typeOnDestination == ContractInvoking
    && HasAnySignalError(tx)
  }

  predicate IsContractDeploymentWithSignalErrorOrIntrashardContractCallWithSignalError(tx: Tx) {
    || IsContractDeploymentWithSignalError(tx)
    || (tx.sourceShard == tx.destinationShard && IsContractCallWithSignalError(tx))
  }

  predicate IsRelayedV1CompletelyIntrashardWithSignalError(net: Network, tx: Tx, inner: InnerTx) {
    && tx.sourceShard == tx.destinationShard
    && net.shardOf(inner.sender) == net.shardOf(inner.receiver) == tx.sourceShard
    && HasAnySignalError(tx)
  }

  predicate IsInvalidMoveBalanceThatOnlyConsumesDataMovementGas(tx: Tx) {
    && tx.kind == Invalid && tx.typeOnSource == MoveBalance && tx.typeOnDestination == MoveBalance
    && (HasSignalErrorOfSendingValueToNonPayableContract(tx) || HasSignalErrorOfMetaTransactionIsInvalid(tx))
  }

  predicate IsIneffectiveRefund(net: Network, scr: Tx) {
    scr.isRefund && scr.sender == scr.receiver && net.IsContractAddress(scr.sender)
  }

  /** Some transaction of the block is the claim that "scr" pays out. */
  predicate HoldsRewardsOfClaimDeveloperRewards(scr: Tx, txsInBlock: seq<Tx>) {
    && scr.data == [] && scr.nonce == 0
    && exists tx :: tx in txsInBlock
         && tx.typeOnSource == BuiltInFunctionCall && tx.typeOnDestination == BuiltInFunctionCall
         && tx.operation == CLAIM_DEVELOPER_REWARDS
         && tx.hash == scr.originalHash
  }

  // ---------------------------------------------------------------- the four kinds of transactions

  function FeePayer(tx: Tx): string {
    if IsRelayedTxV3(tx) then tx.relayerAddress else tx.sender
  }

  function UnsignedOperations(net: Network, scr: Tx, txsInBlock: seq<Tx>): seq<Op> {
    if IsIneffectiveRefund(net, scr) then []
    else if scr.isRefund then [NewOp(OpFeeRefundAsScResult, scr.receiver, scr.value, net.nativeCurrency)]
    else if !net.IsReleaseSpicaActive(scr.epoch) && HoldsRewardsOfClaimDeveloperRewards(scr, txsInBlock) then
      [NewOp(OpDeveloperRewardsAsScResult, scr.receiver, scr.value, net.nativeCurrency)]
    else Move(OpScResult, scr.sender, scr.receiver, scr.value, net.nativeCurrency)
  }

  function RewardOperations(net: Network, tx: Tx): seq<Op> {
    [NewOp(OpReward, tx.receiver, tx.value, net.nativeCurrency)]
  }

  /** Before Sirius, the value of a relayed inner transaction comes back as a contract result, so its
      transfer is shown too; None when the inner transaction cannot be parsed. */
  function InnerOperations(net: Network, tx: Tx): Option<seq<Op>> {
    if net.IsReleaseSiriusActive(tx.epoch) || !IsRelayedV1Transaction(tx) then Some([])
    else
      match tx.inner
      case None => None
      case Some(inner) =>
        if inner.value == 0 || !IsRelayedV1CompletelyIntrashardWithSignalError(net, tx, inner) then Some([])
        else Some(Move(OpTransfer, net.toAddress(inner.sender), net.toAddress(inner.receiver), inner.value,
                       net.nativeCurrency))
  }

  predicate TransfersValue(net: Network, tx: Tx) {
    && tx.value != 0
    && !(net.IsReleaseSiriusActive(tx.epoch)
         && IsContractDeploymentWithSignalErrorOrIntrashardContractCallWithSignalError(tx))
  }

  function NormalOperations(net: Network, tx: Tx): Option<seq<Op>> {
    match InnerOperations(net, tx)
    case None => None
    case Some(inner) =>
      Some((if TransfersValue(net, tx) then Move(OpTransfer, tx.sender, tx.receiver, tx.value, net.nativeCurrency)
            else [])
           + [NewOp(OpFee, FeePayer(tx), 0 - tx.initiallyPaidFee, net.nativeCurrency)]
           + inner)
  }

  function FeeOfInvalid(net: Network, tx: Tx): nat {
    if IsInvalidMoveBalanceThatOnlyConsumesDataMovementGas(tx) then net.ComputeTransactionFeeForMoveBalance(tx)
    else tx.initiallyPaidFee
  }

  function InvalidOperations(net: Network, tx: Tx): seq<Op> {
    [NewOp(OpTransfer, tx.sender, 0 - tx.value, net.nativeCurrency).(status := Some(Failure)),
     NewOp(OpTransfer, tx.receiver, tx.value, net.nativeCurrency).(status := Some(Failure)),
     NewOp(OpFeeOfInvalidTx, FeePayer(tx), 0 - FeeOfInvalid(net, tx), net.nativeCurrency)]
  }

  // ---------------------------------------------------------------- events

  function DeployOperations(net: Network, tx: Tx): EventSCDeploy -> seq<Op> {
    // Only direct deployments; the deployer's own balance change comes from the transaction itself.
    (e: EventSCDeploy) =>
      if tx.receiver == SYSTEM_CONTRACT_DEPLOY_ADDRESS then
        Move(OpTransfer, tx.receiver, e.contract, tx.value, net.nativeCurrency)
      else []
  }

  function ValueOnlyOperations(net: Network): EventTransferValueOnly -> seq<Op> {
    (e: EventTransferValueOnly) => Move(OpTransfer, e.sender, e.receiver, e.value, net.nativeCurrency)
  }

  function TransferOperations(net: Network): EventESDT -> seq<Op> {
    (e: EventESDT) =>
      if e.identifier == NATIVE_AS_ESDT_IDENTIFIER then
        Move(OpTransfer, e.sender, e.receiver, e.value, net.nativeCurrency)
      else if net.HasCustomCurrency(e.identifier) then
        Move(OpCustomTransfer, e.sender, e.receiver, e.value, net.CustomCurrency(e.ExtendedIdentifier()))
      else []
  }

  /** "sign" is 1 where the account gains tokens, and -1 where it loses them. */
  function SupplyOperations(net: Network, sign: int): EventESDT -> seq<Op> {
    (e: EventESDT) =>
      if net.HasCustomCurrency(e.identifier) then
        [NewOp(OpCustomTransfer, e.other, sign * e.value, net.CustomCurrency(e.ExtendedIdentifier()))]
      else []
  }

  function RewardsOperations(net: Network, tx: Tx): EventClaimDeveloperRewards -> seq<Op> {
    (e: EventClaimDeveloperRewards) =>
      if net.IsReleaseSpicaActive(tx.epoch) then [NewOp(OpDeveloperRewards, e.receiver, e.value, net.nativeCurrency)]
      else []
  }

  function OperationsOfEvents(net: Network, tx: Tx, events: TypedEvents): seq<Op> {
    FlatMap(DeployOperations(net, tx), events.deploys)
    + FlatMap(ValueOnlyOperations(net), events.transfersValueOnly)
    + FlatMap(TransferOperations(net), events.transfers)
    + FlatMap(SupplyOperations(net, -1), events.burns)
    + FlatMap(SupplyOperations(net, 1), events.mints)
    + FlatMap(SupplyOperations(net, -1), events.wipes)
    + FlatMap(SupplyOperations(net, 1), events.creates)
    + FlatMap(SupplyOperations(net, -1), events.nftBurns)
    + FlatMap(SupplyOperations(net, 1), events.additions)
    + FlatMap(RewardsOperations(net, tx), events.rewards)
  }

  /** A signal error voids all events, recognisable or not. */
  function EventOperations(net: Network, tx: Tx): Option<seq<Op>> {
    if HasAnySignalError(tx) then Some([])
    else
      match AllEvents(net, tx)
      case None => None
      case Some(events) => Some(OperationsOfEvents(net, tx, events))
  }

  // ---------------------------------------------------------------- metadata

  /** What is always there. */
  function BasicMetadata(tx: Tx): Metadata {
    map[TimestampKey := Number(tx.timestamp), ValueKey := Number(tx.value), NonceKey := Number(tx.nonce),
        TypeOnSourceKey := Type(tx.typeOnSource), TypeOnDestinationKey := Type(tx.typeOnDestination),
        EpochKey := Number(tx.epoch), SenderKey := Text(tx.sender), ReceiverKey := Text(tx.receiver),
        SourceShardKey := Number(tx.sourceShard), DestinationShardKey := Number(tx.destinationShard),
        MiniblockKey := Text(tx.miniblockHash), MiniblockTypeKey := Text(tx.miniblockType)]
  }

  function OptionalText(key: MetadataKey, text: string): Metadata {
    if |text| > 0 then map[key := Text(text)] else map[]
  }

  function OptionalData(key: MetadataKey, data: Bytes): Metadata {
    if |data| > 0 then map[key := Data(data)] else map[]
  }

  function OptionalNumber(key: MetadataKey, number: nat): Metadata {
    if number > 0 then map[key := Number(number)] else map[]
  }

  /** Empty texts and zeros are left out. */
  function TransactionMetadata(tx: Tx): Metadata {
    BasicMetadata(tx)
    + OptionalText(RelayerKey, tx.relayerAddress)
    + OptionalText(OriginalSenderKey, tx.originalSender)
    + OptionalText(SenderUsernameKey, tx.senderUsername)
    + OptionalText(ReceiverUsernameKey, tx.receiverUsername)
    + OptionalText(OriginalTransactionKey, tx.originalHash)
    + OptionalText(PreviousTransactionKey, tx.previousHash)
    + OptionalData(DataKey, tx.data)
    + OptionalNumber(GasPriceKey, tx.gasPrice)
    + OptionalNumber(GasLimitKey, tx.gasLimit)
  }

  /** Rewards, refunds and developer rewards come without metadata. */
  function MetadataOf(net: Network, tx: Tx, txsInBlock: seq<Tx>): Metadata {
    match tx.kind
    case Normal => TransactionMetadata(tx)
    case Invalid => TransactionMetadata(tx)
    case Unsigned =>
      if IsIneffectiveRefund(net, tx) || tx.isRefund
         || (!net.IsReleaseSpicaActive(tx.epoch) && HoldsRewardsOfClaimDeveloperRewards(tx, txsInBlock)) then map[]
      else TransactionMetadata(tx)
    case _ => map[]
  }

  // ---------------------------------------------------------------- transactions and receipts

  function OwnOperations(net: Network, tx: Tx, txsInBlock: seq<Tx>): Option<seq<Op>> {
    match tx.kind
    case Normal => NormalOperations(net, tx)
    case Reward => Some(RewardOperations(net, tx))
    case Unsigned => Some(UnsignedOperations(net, tx, txsInBlock))
    case Invalid => Some(InvalidOperations(net, tx))
    case OtherKind(_) => None
  }

  function TxToRosettaTx(net: Network, txsInBlock: seq<Tx>): Tx -> Option<RosettaTx> {
    (tx: Tx) =>
      match (OwnOperations(net, tx, txsInBlock), EventOperations(net, tx))
      case (Some(own), Some(ofEvents)) => Some(RosettaTx(tx.hash, own + ofEvents, MetadataOf(net, tx, txsInBlock)))
      case _ => None
  }

  function RefundReceiptToRosettaTx(net: Network): Receipt -> Option<RosettaTx> {
    (receipt: Receipt) =>
      match net.receiptHash(receipt)
      case None => None
      case Some(hash) =>
        Some(RosettaTx(hash, [NewOp(OpFeeRefund, receipt.sender, receipt.value, net.nativeCurrency)], map[]))
  }

  function IsRefundReceipt(): Receipt -> bool {
    (receipt: Receipt) => receipt.data == REFUND_GAS_MESSAGE
  }

  // ---------------------------------------------------------------- whole blocks

  function InvalidHashes(txs: seq<Tx>): set<string> {
    set tx | tx in txs && tx.kind == Invalid :: tx.hash
  }

  function KeepUnlessResultOfInvalid(invalid: set<string>): Tx -> bool {
    (tx: Tx) => !(tx.kind == Unsigned && tx.originalHash in invalid)
  }

  function KeepUnlessRelayedAndInvalid(invalid: set<string>): Tx -> bool {
    (tx: Tx) => !(IsRelayedV1Transaction(tx) && tx.hash in invalid)
  }

  function WithoutResultsOfInvalid(txs: seq<Tx>): seq<Tx> {
    Filter(KeepUnlessResultOfInvalid(InvalidHashes(txs)), txs)
  }

  function WithoutRelayedAlreadyInvalid(txs: seq<Tx>): seq<Tx> {
    Filter(KeepUnlessRelayedAndInvalid(InvalidHashes(txs)), txs)
  }

  function FilterTransactions(txs: seq<Tx>): seq<Tx> {
    WithoutRelayedAlreadyInvalid(WithoutResultsOfInvalid(txs))
  }

  /** All Rosetta transactions of a block, before any operation is filtered. */
  function GenerateBlock(net: Network, txs: seq<Tx>, receipts: seq<Receipt>): Option<seq<RosettaTx>> {
    var filtered := FilterTransactions(txs);
    match (MapAll(TxToRosettaTx(net, filtered), filtered),
           MapAll(RefundReceiptToRosettaTx(net), Filter(IsRefundReceipt(), receipts)))
    case (Some(ofTxs), Some(ofReceipts)) => Some(ofTxs + ofReceipts)
    case _ => None
  }

  function FinalizeTx(net: Network): RosettaTx -> Option<RosettaTx> {
    (rosettaTx: RosettaTx) =>
      match Finalize(net, rosettaTx.operations)
      case None => None
      case Some(operations) => Some(rosettaTx.(operations := operations))
  }

  function HasOperations(): RosettaTx -> bool {
    (rosettaTx: RosettaTx) => |rosettaTx.operations| > 0
  }

  function FinalizeBlock(net: Network, generated: seq<RosettaTx>): Option<seq<RosettaTx>> {
    match MapAll(FinalizeTx(net), generated)
    case None => None
    case Some(finalized) => Some(Filter(HasOperations(), finalized))
  }

  /** What is served for a block with these transactions and receipts. */
  function TransformBlock(net: Network, txs: seq<Tx>, receipts: seq<Receipt>): Option<seq<RosettaTx>> {
    match GenerateBlock(net, txs, receipts)
    case None => None
    case Some(generated) => FinalizeBlock(net, generated)
  }

  // ---------------------------------------------------------------- order does not matter

  lemma {:induction false} FilteredPermutation(a: seq<Tx>, b: seq<Tx>)
    requires multiset(a) == multiset(b)
    ensures multiset(FilterTransactions(a)) == multiset(FilterTransactions(b))
  {
    SameMembers(a, b);
    assert InvalidHashes(a) == InvalidHashes(b);
    FilterPermutation(KeepUnlessResultOfInvalid(InvalidHashes(a)), a, b);
    var a', b' := WithoutResultsOfInvalid(a), WithoutResultsOfInvalid(b);
    SameMembers(a', b');
    assert InvalidHashes(a') == InvalidHashes(b');
    FilterPermutation(KeepUnlessRelayedAndInvalid(InvalidHashes(a')), a', b');
  }

  /** A transaction's operations depend on which others are in the block, but not on their order. */
  lemma {:induction false} SameOperationsInPermutedBlock(net: Network, tx: Tx, a: seq<Tx>, b: seq<Tx>)
    requires multiset(a) == multiset(b)
    ensures TxToRosettaTx(net, a)(tx) == TxToRosettaTx(net, b)(tx)
  {
    SameMembers(a, b);
  }

  lemma {:induction false} GeneratedPermutation(net: Network, a: seq<Tx>, b: seq<Tx>, receipts: seq<Receipt>)
    requires multiset(a) == multiset(b)
    ensures GenerateBlock(net, a, receipts).Some? <==> GenerateBlock(net, b, receipts).Some?
    ensures GenerateBlock(net, a, receipts).Some? ==>
              multiset(GenerateBlock(net, a, receipts).value) == multiset(GenerateBlock(net, b, receipts).value)
  {
    FilteredPermutation(a, b);
    var a', b' := FilterTransactions(a), FilterTransactions(b);
    forall tx | tx in b' ensures TxToRosettaTx(net, a')(tx) == TxToRosettaTx(net, b')(tx) {
      SameOperationsInPermutedBlock(net, tx, a', b');
    }
    MapAllPermutation(TxToRosettaTx(net, a'), a', b');
    MapAllCongruence(TxToRosettaTx(net, a'), TxToRosettaTx(net, b'), b');
  }

  /** Permuting the transactions of a block permutes the served Rosetta transactions, each with its operation
      list as it was; whether the request succeeds does not change. */
  lemma {:induction false} TransformPermutation(net: Network, a: seq<Tx>, b: seq<Tx>, receipts: seq<Receipt>)
    requires multiset(a) == multiset(b)
    ensures TransformBlock(net, a, receipts).Some? <==> TransformBlock(net, b, receipts).Some?
    ensures TransformBlock(net, a, receipts).Some? ==>
              multiset(TransformBlock(net, a, receipts).value) == multiset(TransformBlock(net, b, receipts).value)
  {
    GeneratedPermutation(net, a, b, receipts);
    if GenerateBlock(net, a, receipts).Some? {
      var generatedA, generatedB := GenerateBlock(net, a, receipts).value, GenerateBlock(net, b, receipts).value;
      MapAllPermutation(FinalizeTx(net), generatedA, generatedB);
      if MapAll(FinalizeTx(net), generatedA).Some? {
        FilterPermutation(HasOperations(), MapAll(FinalizeTx(net), generatedA).value,
                          MapAll(FinalizeTx(net), generatedB).value);
      }
    }
  }

  function EntryAt(m: Metadata, key: MetadataKey): Option<MetadataValue> {
    if key in m then Some(m[key]) else None
  }

  function TextUnlessEmpty(text: string): Option<MetadataValue> {
    if text == "" then None else Some(Text(text))
  }

  function NumberUnlessZero(number: nat): Option<MetadataValue> {
    if number == 0 then None else Some(Number(number))
  }

  /** What is found under each key: empty texts and zeros of the optional entries are left out. */
  function MetadataEntry(tx: Tx, key: MetadataKey): Option<MetadataValue> {
    match key
    case TimestampKey => Some(Number(tx.timestamp))
    case ValueKey => Some(Number(tx.value))
    case NonceKey => Some(Number(tx.nonce))
    case TypeOnSourceKey => Some(Type(tx.typeOnSource))
    case TypeOnDestinationKey => Some(Type(tx.typeOnDestination))
    case EpochKey => Some(Number(tx.epoch))
    case SenderKey => Some(Text(tx.sender))
    case ReceiverKey => Some(Text(tx.receiver))
    case SourceShardKey => Some(Number(tx.sourceShard))
    case DestinationShardKey => Some(Number(tx.destinationShard))
    case MiniblockKey => Some(Text(tx.miniblockHash))
    case MiniblockTypeKey => Some(Text(tx.miniblockType))
    case RelayerKey => TextUnlessEmpty(tx.relayerAddress)
    case OriginalSenderKey => TextUnlessEmpty(tx.originalSender)
    case SenderUsernameKey => TextUnlessEmpty(tx.senderUsername)
    case ReceiverUsernameKey => TextUnlessEmpty(tx.receiverUsername)
    case OriginalTransactionKey => TextUnlessEmpty(tx.originalHash)
    case PreviousTransactionKey => TextUnlessEmpty(tx.previousHash)
    case DataKey => if tx.data == [] then None else Some(Data(tx.data))
    case GasPriceKey => NumberUnlessZero(tx.gasPrice)
    case GasLimitKey => NumberUnlessZero(tx.gasLimit)
  }

  lemma {:induction false} OneMoreEntry(m: Metadata, more: Metadata, key: MetadataKey)
    ensures EntryAt(m + more, key) == if key in more then EntryAt(more, key) else EntryAt(m, key)
  {
  }

  lemma {:induction false} OptionalEntries(optional: MetadataKey, text: string, number: nat, data: Bytes,
                                           key: MetadataKey)
    ensures EntryAt(OptionalText(optional, text), key) == if key == optional then TextUnlessEmpty(text) else None
    ensures EntryAt(OptionalNumber(optional, number), key) == if key == optional then NumberUnlessZero(number) else None
    ensures EntryAt(OptionalData(optional, data), key)
         == if key == optional && data != [] then Some(Data(data)) else None
  {
  }

  lemma {:induction false} BasicEntries(tx: Tx, key: MetadataKey)
    ensures EntryAt(BasicMetadata(tx), key)
         == if key in {TimestampKey, ValueKey, NonceKey, TypeOnSourceKey, TypeOnDestinationKey, EpochKey, SenderKey,
                       ReceiverKey, SourceShardKey, DestinationShardKey, MiniblockKey, MiniblockTypeKey}
            then MetadataEntry(tx, key) else None
  {
  }

  /** Adding an optional entry decides about its key, which is not there yet, and about no other. */
  lemma {:induction false} AddsEntry(m: Metadata, optional: MetadataKey, more: Metadata, value: Option<MetadataValue>)
    requires forall k :: EntryAt(more, k) == if k == optional then value else None
    requires EntryAt(m, optional) == None
    ensures forall k :: EntryAt(m + more, k) == if k == optional then value else EntryAt(m, k)
  {
    forall k ensures EntryAt(m + more, k) == if k == optional then value else EntryAt(m, k) {
      OneMoreEntry(m, more, k);
      assert EntryAt(more, k) == if k == optional then value else None;
    }
  }

  lemma {:induction false} AddsText(m: Metadata, optional: MetadataKey, text: string)
    requires EntryAt(m, optional) == None
    ensures forall k :: EntryAt(m + OptionalText(optional, text), k)
                     == if k == optional then TextUnlessEmpty(text) else EntryAt(m, k)
  {
    forall k ensures EntryAt(OptionalText(optional, text), k) == if k == optional then TextUnlessEmpty(text) else None {
      OptionalEntries(optional, text, 0, [], k);
    }
    AddsEntry(m, optional, OptionalText(optional, text), TextUnlessEmpty(text));
  }

  lemma {:induction false} AddsNumber(m: Metadata, optional: MetadataKey, number: nat)
    requires EntryAt(m, optional) == None
    ensures forall k :: EntryAt(m + OptionalNumber(optional, number), k)
                     == if k == optional then NumberUnlessZero(number) else EntryAt(m, k)
  {
    forall k
      ensures EntryAt(OptionalNumber(optional, number), k) == if k == optional then NumberUnlessZero(number) else None
    {
      OptionalEntries(optional, "", number, [], k);
    }
    AddsEntry(m, optional, OptionalNumber(optional, number), NumberUnlessZero(number));
  }

  lemma {:induction false} AddsData(m: Metadata, data: Bytes)
    requires EntryAt(m, DataKey) == None
    ensures forall k :: EntryAt(m + OptionalData(DataKey, data), k)
                     == if k == DataKey then (if data == [] then None else Some(Data(data))) else EntryAt(m, k)
  {
    var value: Option<MetadataValue> := if data == [] then None else Some(Data(data));
    forall k ensures EntryAt(OptionalData(DataKey, data), k) == if k == DataKey then value else None {
      OptionalEntries(DataKey, "", 0, data, k);
    }
    AddsEntry(m, DataKey, OptionalData(DataKey, data), value);
  }

  predicate IsBasicKey(key: MetadataKey) {
    key in {TimestampKey, ValueKey, NonceKey, TypeOnSourceKey, TypeOnDestinationKey, EpochKey, SenderKey, ReceiverKey,
            SourceShardKey, DestinationShardKey, MiniblockKey, MiniblockTypeKey}
  }

  function TextsOf(tx: Tx): Metadata {
    BasicMetadata(tx)
    + OptionalText(RelayerKey, tx.relayerAddress)
    + OptionalText(OriginalSenderKey, tx.originalSender)
    + OptionalText(SenderUsernameKey, tx.senderUsername)
    + OptionalText(ReceiverUsernameKey, tx.receiverUsername)
    + OptionalText(OriginalTransactionKey, tx.originalHash)
    + OptionalText(PreviousTransactionKey, tx.previousHash)
  }

  lemma {:induction false} TextEntries(tx: Tx, key: MetadataKey)
    ensures EntryAt(TextsOf(tx), key)
         == if key == PreviousTransactionKey then TextUnlessEmpty(tx.previousHash)
            else if key == OriginalTransactionKey then TextUnlessEmpty(tx.originalHash)
            else if key == ReceiverUsernameKey then TextUnlessEmpty(tx.receiverUsername)
            else if key == SenderUsernameKey then TextUnlessEmpty(tx.senderUsername)
            else if key == OriginalSenderKey then TextUnlessEmpty(tx.originalSender)
            else if key == RelayerKey then TextUnlessEmpty(tx.relayerAddress)
            else if IsBasicKey(key) then MetadataEntry(tx, key) else None
  {
    hide EntryAt, BasicMetadata, OptionalText, TextUnlessEmpty, MetadataEntry;
    var m := BasicMetadata(tx);
    forall k ensures EntryAt(m, k) == if IsBasicKey(k) then MetadataEntry(tx, k) else None {
      BasicEntries(tx, k);
    }
    AddsText(m, RelayerKey, tx.relayerAddress);
    m := m + OptionalText(RelayerKey, tx.relayerAddress);
    AddsText(m, OriginalSenderKey, tx.originalSender);
    m := m + OptionalText(OriginalSenderKey, tx.originalSender);
    AddsText(m, SenderUsernameKey, tx.senderUsername);
    m := m + OptionalText(SenderUsernameKey, tx.senderUsername);
    AddsText(m, ReceiverUsernameKey, tx.receiverUsername);
    m := m + OptionalText(ReceiverUsernameKey, tx.receiverUsername);
    AddsText(m, OriginalTransactionKey, tx.originalHash);
    m := m + OptionalText(OriginalTransactionKey, tx.originalHash);
    AddsText(m, PreviousTransactionKey, tx.previousHash);
  }

  lemma {:induction false} NumberEntries(tx: Tx, key: MetadataKey)
    ensures EntryAt(TransactionMetadata(tx), key)
         == if key == GasLimitKey then NumberUnlessZero(tx.gasLimit)
            else if key == GasPriceKey then NumberUnlessZero(tx.gasPrice)
            else if key == DataKey then (if tx.data == [] then None else Some(Data(tx.data)))
            else EntryAt(TextsOf(tx), key)
  {
    hide EntryAt, TextsOf, OptionalNumber, OptionalData, TextUnlessEmpty, NumberUnlessZero, MetadataEntry;
    var m := TextsOf(tx);
    TextEntries(tx, DataKey);
    TextEntries(tx, GasPriceKey);
    TextEntries(tx, GasLimitKey);
    AddsData(m, tx.data);
    m := m + OptionalData(DataKey, tx.data);
    AddsNumber(m, GasPriceKey, tx.gasPrice);
    m := m + OptionalNumber(GasPriceKey, tx.gasPrice);
    AddsNumber(m, GasLimitKey, tx.gasLimit);
    m := m + OptionalNumber(GasLimitKey, tx.gasLimit);
    assert m == TransactionMetadata(tx) by { TextsFirst(tx); }
  }

  lemma {:induction false} TextsFirst(tx: Tx)
    ensures TransactionMetadata(tx)
         == TextsOf(tx) + OptionalData(DataKey, tx.data) + OptionalNumber(GasPriceKey, tx.gasPrice)
            + OptionalNumber(GasLimitKey, tx.gasLimit)
  {
    hide BasicMetadata, OptionalText, OptionalNumber, OptionalData;
  }

  /** The metadata of a transaction holds under each key what the table says, and nothing else. */
  lemma {:induction false} MetadataExactly(tx: Tx, key: MetadataKey)
    ensures EntryAt(TransactionMetadata(tx), key) == MetadataEntry(tx, key)
  {
    hide EntryAt, TransactionMetadata, TextsOf, TextUnlessEmpty, NumberUnlessZero;
    NumberEntries(tx, key);
    TextEntries(tx, key);
  }
}
