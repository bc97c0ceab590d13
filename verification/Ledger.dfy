/** Double-entry bookkeeping of a block: what its operations do to the supply of each currency, compared with
    what the protocol says was charged, granted, minted and burned. */
module Ledger {
  import opened Encoding
  import opened Chain
  import opened Network
  import opened Sequences
  import opened Events
  import opened Operations
  import opened Transformer

  // ---------------------------------------------------------------- what the protocol says

  function FeeCharged(net: Network, tx: Tx): nat {
    match tx.kind
    case Normal => tx.initiallyPaidFee
    case Invalid => FeeOfInvalid(net, tx)
    case _ => 0
  }

  /** Native currency that arrives without leaving another account: rewards, fee refunds and, before Spica,
      developer rewards paid by a contract result. */
  function Granted(net: Network, tx: Tx, txsInBlock: seq<Tx>): nat {
    match tx.kind
    case Reward => tx.value
    case Unsigned =>
      if IsIneffectiveRefund(net, tx) then 0
      else if tx.isRefund
              || (!net.IsReleaseSpicaActive(tx.epoch) && HoldsRewardsOfClaimDeveloperRewards(tx, txsInBlock)) then
        tx.value
      else 0
    case _ => 0
  }

  function ClaimedIn(): Event -> int {
    (e: Event) => if e.kind == ClaimDeveloperRewards && e.topics != [] then BytesToNat(e.topics[0]) else 0
  }

  /** From Spica on, developer rewards are told by events. */
  function Claimed(net: Network, tx: Tx): int {
    if HasAnySignalError(tx) || !net.IsReleaseSpicaActive(tx.epoch) then 0 else SumOf(ClaimedIn(), tx.events)
  }

  function SupplySign(kind: EventKind): int {
    match kind
    case ESDTLocalMint => 1
    case ESDTNFTCreate => 1
    case ESDTNFTAddQuantity => 1
    case ESDTLocalBurn => -1
    case ESDTWipe => -1
    case ESDTNFTBurn => -1
    case _ => 0
  }

  /** What an event adds to the supply of "currency", for supported tokens. */
  function IssuedIn(net: Network, currency: Currency): Event -> int {
    (e: Event) =>
      if |e.topics| < 3 then 0
      else
        var token := FromBasicTopics(e.topics).value;
        if net.HasCustomCurrency(token.identifier) && net.CustomCurrency(token.ExtendedIdentifier()) == currency then
          SupplySign(e.kind) * token.value
        else 0
  }

  function Issued(net: Network, tx: Tx, currency: Currency): int {
    if HasAnySignalError(tx) then 0 else SumOf(IssuedIn(net, currency), tx.events)
  }

  /** The change of the total supply of "currency" that a transaction stands for. */
  function ProtocolNet(net: Network, txsInBlock: seq<Tx>, currency: Currency): Tx -> int {
    (tx: Tx) =>
      (if currency == net.nativeCurrency then
         Granted(net, tx, txsInBlock) + Claimed(net, tx) - FeeCharged(net, tx)
       else 0)
      + Issued(net, tx, currency)
  }

  // ---------------------------------------------------------------- sums of generated operations

  lemma {:induction false} NetOfOne(op: Op, currency: Currency)
    ensures Net([op], currency) == NetIn(currency)(op)
  {
    SumOfOne(NetIn(currency), op);
  }

  lemma {:induction false} NetConcat(a: seq<Op>, b: seq<Op>, currency: Currency)
    ensures Net(a + b, currency) == Net(a, currency) + Net(b, currency)
  {
    SumConcat(NetIn(currency), a, b);
  }

  lemma {:induction false} NetOfMove(
      kind: OpKind, from: string, to: string, value: nat, of: Currency, currency: Currency)
    ensures Net(Move(kind, from, to, value, of), currency) == 0
  {
    var ops := Move(kind, from, to, value, of);
    assert ops == [ops[0]] + [ops[1]];
    NetConcat([ops[0]], [ops[1]], currency);
    NetOfOne(ops[0], currency);
    NetOfOne(ops[1], currency);
  }

  lemma {:induction false} NetOfNothing(currency: Currency)
    ensures Net([], currency) == 0
  {
  }

  lemma {:induction false} NetOfBalanced<S>(f: S -> seq<Op>, s: seq<S>, currency: Currency)
    requires forall x :: x in s ==> Net(f(x), currency) == 0
    ensures Net(FlatMap(f, s), currency) == 0
  {
    SumFlatMap(NetIn(currency), f, (x: S) => 0, s);
    SumOfZeros(s);
  }

  lemma {:induction false} NetOfOwn(net: Network, tx: Tx, txsInBlock: seq<Tx>, currency: Currency)
    requires OwnOperations(net, tx, txsInBlock).Some?
    ensures Net(OwnOperations(net, tx, txsInBlock).value, currency)
         == if currency == net.nativeCurrency then Granted(net, tx, txsInBlock) - FeeCharged(net, tx) else 0
  {
    var ops := OwnOperations(net, tx, txsInBlock).value;
    match tx.kind
    case Normal => NetOfNormal(net, tx, currency);
    case Reward => NetOfOne(ops[0], currency);
    case Unsigned =>
      NetOfMove(OpScResult, tx.sender, tx.receiver, tx.value, net.nativeCurrency, currency);
      if ops != [] {
        NetOfOne(ops[0], currency);
      }
    case Invalid =>
      assert ops == ops[..2] + [ops[2]] && ops[..2] == [ops[0]] + [ops[1]];
      NetConcat(ops[..2], [ops[2]], currency);
      NetConcat([ops[0]], [ops[1]], currency);
      NetOfOne(ops[0], currency);
      NetOfOne(ops[1], currency);
      NetOfOne(ops[2], currency);
  }

  lemma {:induction false} NetOfNormal(net: Network, tx: Tx, currency: Currency)
    requires NormalOperations(net, tx).Some?
    ensures Net(NormalOperations(net, tx).value, currency)
         == if currency == net.nativeCurrency then 0 - tx.initiallyPaidFee else 0
  {
    var inner := InnerOperations(net, tx).value;
    var moved :=
      if TransfersValue(net, tx) then Move(OpTransfer, tx.sender, tx.receiver, tx.value, net.nativeCurrency) else [];
    var fee := NewOp(OpFee, FeePayer(tx), 0 - tx.initiallyPaidFee, net.nativeCurrency);
    NetConcat(moved + [fee], inner, currency);
    NetConcat(moved, [fee], currency);
    NetOfOne(fee, currency);
    NetOfMove(OpTransfer, tx.sender, tx.receiver, tx.value, net.nativeCurrency, currency);
    NetOfNothing(currency);
    if inner != [] {
      NetOfMove(OpTransfer, net.toAddress(tx.inner.value.sender), net.toAddress(tx.inner.value.receiver),
                tx.inner.value.value, net.nativeCurrency, currency);
    }
  }

  // ---------------------------------------------------------------- events that change supply

  function SupplyOf(net: Network, sign: int, currency: Currency): EventESDT -> int {
    (e: EventESDT) =>
      if net.HasCustomCurrency(e.identifier) && net.CustomCurrency(e.ExtendedIdentifier()) == currency then
        sign * e.value
      else 0
  }

  /** Supply operations of one kind of event sum up to what the raw events of that kind issue. */
  lemma {:induction false} NetOfSupply(
      net: Network, tx: Tx, kind: EventKind, read: Event -> Option<EventESDT>, sign: int, currency: Currency)
    requires sign == SupplySign(kind) && sign != 0
    requires MapAll(read, FindMany(tx, kind)).Some?
    requires forall e: Event :: read(e).Some? ==>
               |e.topics| >= 3 && SameToken(read(e).value, FromBasicTopics(e.topics).value)
    ensures Net(FlatMap(SupplyOperations(net, sign), MapAll(read, FindMany(tx, kind)).value), currency)
         == SumOf(OfKind(kind, IssuedIn(net, currency)), tx.events)
  {
    var typed := MapAll(read, FindMany(tx, kind)).value;
    forall e: EventESDT
      ensures SumOf(NetIn(currency), SupplyOperations(net, sign)(e)) == SupplyOf(net, sign, currency)(e)
    {
      if net.HasCustomCurrency(e.identifier) {
        NetOfOne(SupplyOperations(net, sign)(e)[0], currency);
      }
    }
    SumFlatMap(NetIn(currency), SupplyOperations(net, sign), SupplyOf(net, sign, currency), typed);
    SumOfRead(read, FindMany(tx, kind), SupplyOf(net, sign, currency), IssuedIn(net, currency));
    SumOfFiltered(IssuedIn(net, currency), IsKind(kind), OfKind(kind, IssuedIn(net, currency)), tx.events);
  }

  predicate SameToken(a: EventESDT, b: EventESDT) {
    a.identifier == b.identifier && a.nonce == b.nonce && a.value == b.value
  }

  lemma {:induction false} SplitByKind(f: Event -> int, events: seq<Event>)
    requires forall e: Event :: SupplySign(e.kind) == 0 ==> f(e) == 0
    ensures SumOf(f, events)
         == SumOf(OfKind(ESDTLocalBurn, f), events) + SumOf(OfKind(ESDTLocalMint, f), events)
            + SumOf(OfKind(ESDTWipe, f), events) + SumOf(OfKind(ESDTNFTCreate, f), events)
            + SumOf(OfKind(ESDTNFTBurn, f), events) + SumOf(OfKind(ESDTNFTAddQuantity, f), events)
  {
    if events != [] {
      SplitByKind(f, events[..|events| - 1]);
    }
  }

  lemma {:induction false} NetOfClaims(net: Network, tx: Tx, currency: Currency)
    requires MapAll((e: Event) => DeveloperRewards(net, e), FindMany(tx, ClaimDeveloperRewards)).Some?
    ensures Net(FlatMap(RewardsOperations(net, tx),
                        MapAll((e: Event) => DeveloperRewards(net, e), FindMany(tx, ClaimDeveloperRewards)).value),
                currency)
         == if currency == net.nativeCurrency && net.IsReleaseSpicaActive(tx.epoch) then SumOf(ClaimedIn(), tx.events)
            else 0
  {
    var read := (e: Event) => DeveloperRewards(net, e);
    var typed := MapAll(read, FindMany(tx, ClaimDeveloperRewards)).value;
    var paid := (e: EventClaimDeveloperRewards) => e.value as int;
    if currency == net.nativeCurrency && net.IsReleaseSpicaActive(tx.epoch) {
      forall e: EventClaimDeveloperRewards ensures SumOf(NetIn(currency), RewardsOperations(net, tx)(e)) == paid(e) {
        NetOfOne(RewardsOperations(net, tx)(e)[0], currency);
      }
      SumFlatMap(NetIn(currency), RewardsOperations(net, tx), paid, typed);
      SumOfRead(read, FindMany(tx, ClaimDeveloperRewards), paid, ClaimedIn());
      SumOfFiltered(ClaimedIn(), IsKind(ClaimDeveloperRewards), ClaimedIn(), tx.events);
    } else {
      forall e: EventClaimDeveloperRewards ensures Net(RewardsOperations(net, tx)(e), currency) == 0 {
        if net.IsReleaseSpicaActive(tx.epoch) {
          NetOfOne(RewardsOperations(net, tx)(e)[0], currency);
        }
      }
      NetOfBalanced(RewardsOperations(net, tx), typed, currency);
    }
  }

  lemma {:induction false} NetOfTransfersAndDeploys(net: Network, tx: Tx, events: TypedEvents, currency: Currency)
    ensures Net(FlatMap(DeployOperations(net, tx), events.deploys), currency) == 0
    ensures Net(FlatMap(ValueOnlyOperations(net), events.transfersValueOnly), currency) == 0
    ensures Net(FlatMap(TransferOperations(net), events.transfers), currency) == 0
  {
    forall e: EventSCDeploy ensures Net(DeployOperations(net, tx)(e), currency) == 0 {
      NetOfMove(OpTransfer, tx.receiver, e.contract, tx.value, net.nativeCurrency, currency);
    }
    forall e: EventTransferValueOnly ensures Net(ValueOnlyOperations(net)(e), currency) == 0 {
      NetOfMove(OpTransfer, e.sender, e.receiver, e.value, net.nativeCurrency, currency);
    }
    forall e: EventESDT ensures Net(TransferOperations(net)(e), currency) == 0 {
      NetOfMove(OpTransfer, e.sender, e.receiver, e.value, net.nativeCurrency, currency);
      NetOfMove(OpCustomTransfer, e.sender, e.receiver, e.value, net.CustomCurrency(e.ExtendedIdentifier()), currency);
    }
    NetOfBalanced(DeployOperations(net, tx), events.deploys, currency);
    NetOfBalanced(ValueOnlyOperations(net), events.transfersValueOnly, currency);
    NetOfBalanced(TransferOperations(net), events.transfers, currency);
  }

  lemma {:induction false} SupplyEventsAreRead(net: Network, tx: Tx)
    requires AllEvents(net, tx).Some?
    ensures var events := AllEvents(net, tx).value;
      && MapAll(OneSided(3), FindMany(tx, ESDTLocalBurn)) == Some(events.burns)
      && MapAll(OneSided(3), FindMany(tx, ESDTLocalMint)) == Some(events.mints)
      && MapAll((e: Event) => Wipe(net, e), FindMany(tx, ESDTWipe)) == Some(events.wipes)
      && MapAll(OneSided(4), FindMany(tx, ESDTNFTCreate)) == Some(events.creates)
      && MapAll(OneSided(3), FindMany(tx, ESDTNFTBurn)) == Some(events.nftBurns)
      && MapAll(OneSided(3), FindMany(tx, ESDTNFTAddQuantity)) == Some(events.additions)
  {
    hide MapAll, FindMany, Transfers, TransfersValueOnly, Deploy, DeveloperRewards;
  }

  lemma {:induction false} ReadsSameToken(net: Network, e: Event)
    ensures OneSided(3)(e).Some? ==> |e.topics| >= 3 && SameToken(OneSided(3)(e).value, FromBasicTopics(e.topics).value)
    ensures OneSided(4)(e).Some? ==> |e.topics| >= 3 && SameToken(OneSided(4)(e).value, FromBasicTopics(e.topics).value)
    ensures Wipe(net, e).Some? ==> |e.topics| >= 3 && SameToken(Wipe(net, e).value, FromBasicTopics(e.topics).value)
  {
  }

  lemma {:induction false} NetOfSupplyEvents(net: Network, tx: Tx, currency: Currency)
    requires AllEvents(net, tx).Some?
    ensures var events := AllEvents(net, tx).value;
      Net(FlatMap(SupplyOperations(net, -1), events.burns), currency)
      + Net(FlatMap(SupplyOperations(net, 1), events.mints), currency)
      + Net(FlatMap(SupplyOperations(net, -1), events.wipes), currency)
      + Net(FlatMap(SupplyOperations(net, 1), events.creates), currency)
      + Net(FlatMap(SupplyOperations(net, -1), events.nftBurns), currency)
      + Net(FlatMap(SupplyOperations(net, 1), events.additions), currency)
      == SumOf(IssuedIn(net, currency), tx.events)
  {
    hide Net, AllEvents, MapAll, FindMany, FlatMap, SumOf, FromBasicTopics, OneSided, Wipe, SupplyOperations, SameToken;
    SupplyEventsAreRead(net, tx);
    forall e: Event { ReadsSameToken(net, e); }
    NetOfSupply(net, tx, ESDTLocalBurn, OneSided(3), -1, currency);
    NetOfSupply(net, tx, ESDTLocalMint, OneSided(3), 1, currency);
    NetOfSupply(net, tx, ESDTWipe, (e: Event) => Wipe(net, e), -1, currency);
    NetOfSupply(net, tx, ESDTNFTCreate, OneSided(4), 1, currency);
    NetOfSupply(net, tx, ESDTNFTBurn, OneSided(3), -1, currency);
    NetOfSupply(net, tx, ESDTNFTAddQuantity, OneSided(3), 1, currency);
    SplitByKind(IssuedIn(net, currency), tx.events);
  }

  lemma {:induction false} NetOfTen(
      a: seq<Op>, b: seq<Op>, c: seq<Op>, d: seq<Op>, e: seq<Op>, f: seq<Op>, g: seq<Op>, h: seq<Op>, i: seq<Op>,
      j: seq<Op>, currency: Currency)
    ensures Net(a + b + c + d + e + f + g + h + i + j, currency)
         == Net(a, currency) + Net(b, currency) + Net(c, currency) + Net(d, currency) + Net(e, currency)
            + Net(f, currency) + Net(g, currency) + Net(h, currency) + Net(i, currency) + Net(j, currency)
  {
    hide Net;
    NetConcat(a, b, currency);
    NetConcat(a + b, c, currency);
    NetConcat(a + b + c, d, currency);
    NetConcat(a + b + c + d, e, currency);
    NetConcat(a + b + c + d + e, f, currency);
    NetConcat(a + b + c + d + e + f, g, currency);
    NetConcat(a + b + c + d + e + f + g, h, currency);
    NetConcat(a + b + c + d + e + f + g + h, i, currency);
    NetConcat(a + b + c + d + e + f + g + h + i, j, currency);
  }

  lemma {:induction false} NetOfEvents(net: Network, tx: Tx, currency: Currency)
    requires EventOperations(net, tx).Some?
    ensures Net(EventOperations(net, tx).value, currency)
         == (if currency == net.nativeCurrency then Claimed(net, tx) else 0) + Issued(net, tx, currency)
  {
    if !HasAnySignalError(tx) {
      hide Net, SupplyOperations, DeployOperations, ValueOnlyOperations, TransferOperations, RewardsOperations, FlatMap;
      var events := AllEvents(net, tx).value;
      NetOfTen(
        FlatMap(DeployOperations(net, tx), events.deploys),
        FlatMap(ValueOnlyOperations(net), events.transfersValueOnly),
        FlatMap(TransferOperations(net), events.transfers),
        FlatMap(SupplyOperations(net, -1), events.burns),
        FlatMap(SupplyOperations(net, 1), events.mints),
        FlatMap(SupplyOperations(net, -1), events.wipes),
        FlatMap(SupplyOperations(net, 1), events.creates),
        FlatMap(SupplyOperations(net, -1), events.nftBurns),
        FlatMap(SupplyOperations(net, 1), events.additions),
        FlatMap(RewardsOperations(net, tx), events.rewards), currency);
      NetOfTransfersAndDeploys(net, tx, events, currency);
      NetOfSupplyEvents(net, tx, currency);
      NetOfClaims(net, tx, currency);
    } else {
      NetOfNothing(currency);
    }
  }

  // ---------------------------------------------------------------- whole blocks

  function NetOfTx(currency: Currency): RosettaTx -> int {
    (rosettaTx: RosettaTx) => Net(rosettaTx.operations, currency)
  }

  lemma {:induction false} TransactionConserves(net: Network, txsInBlock: seq<Tx>, tx: Tx, currency: Currency)
    requires TxToRosettaTx(net, txsInBlock)(tx).Some?
    ensures Net(TxToRosettaTx(net, txsInBlock)(tx).value.operations, currency)
         == ProtocolNet(net, txsInBlock, currency)(tx)
  {
    NetConcat(OwnOperations(net, tx, txsInBlock).value, EventOperations(net, tx).value, currency);
    NetOfOwn(net, tx, txsInBlock, currency);
    NetOfEvents(net, tx, currency);
  }

  function Refunded(net: Network, currency: Currency): Receipt -> int {
    (receipt: Receipt) =>
      if receipt.data == REFUND_GAS_MESSAGE && currency == net.nativeCurrency then receipt.value else 0
  }

  /** Before any operation is filtered, the operations of a block change the supply of each currency by exactly
      what the protocol charged, granted, claimed, refunded, minted and burned in it; everything that merely
      moves between accounts cancels. */
  lemma {:induction false} BlockConserves(net: Network, txs: seq<Tx>, receipts: seq<Receipt>, currency: Currency)
    ensures var generated := GenerateBlock(net, txs, receipts);
      generated.Some? ==>
        SumOf(NetOfTx(currency), generated.value)
        == SumOf(ProtocolNet(net, FilterTransactions(txs), currency), FilterTransactions(txs))
           + SumOf(Refunded(net, currency), receipts)
  {
    if GenerateBlock(net, txs, receipts).None? {
      return;
    }
    var filtered, refunds := FilterTransactions(txs), Filter(IsRefundReceipt(), receipts);
    var toRosetta, ofReceipt := TxToRosettaTx(net, filtered), RefundReceiptToRosettaTx(net);
    SumConcat(NetOfTx(currency), MapAll(toRosetta, filtered).value, MapAll(ofReceipt, refunds).value);
    forall tx | tx in filtered && toRosetta(tx).Some?
      ensures NetOfTx(currency)(toRosetta(tx).value) == ProtocolNet(net, filtered, currency)(tx)
    {
      TransactionConserves(net, filtered, tx, currency);
    }
    SumOfRead(toRosetta, filtered, NetOfTx(currency), ProtocolNet(net, filtered, currency));
    forall receipt | receipt in refunds && ofReceipt(receipt).Some?
      ensures NetOfTx(currency)(ofReceipt(receipt).value) == Refunded(net, currency)(receipt)
    {
      NetOfOne(ofReceipt(receipt).value.operations[0], currency);
    }
    SumOfRead(ofReceipt, refunds, NetOfTx(currency), Refunded(net, currency));
    SumOfFiltered(Refunded(net, currency), IsRefundReceipt(), Refunded(net, currency), receipts);
  }

  // ---------------------------------------------------------------- through the filters

  function EffectOfTx(account: string, currency: Currency): RosettaTx -> int {
    (rosettaTx: RosettaTx) => Effect(rosettaTx.operations, account, currency)
  }

  /** From generated to served: for every observed account and currency the summed effect of a whole block is
      kept, though operations and whole transactions are dropped; accounts not observed end up with none. */
  lemma {:induction false} FiltersKeepMeaning(
      net: Network, generated: seq<RosettaTx>, account: string, currency: Currency)
    requires FinalizeBlock(net, generated).Some?
    ensures SumOf(EffectOfTx(account, currency), FinalizeBlock(net, generated).value)
         == if Observed(net, account) then SumOf(EffectOfTx(account, currency), generated) else 0
  {
    var f := EffectOfTx(account, currency);
    var g := (t: RosettaTx) => if Observed(net, account) then f(t) else 0;
    var finalized := MapAll(FinalizeTx(net), generated).value;
    SumOfFiltered(f, HasOperations(), f, finalized);
    forall t | t in generated && FinalizeTx(net)(t).Some? ensures f(FinalizeTx(net)(t).value) == g(t) {
      FinalizeKeepsEffects(net, t.operations, account, currency);
    }
    SumOfRead(FinalizeTx(net), generated, f, g);
    if Observed(net, account) {
      SumCongruence(g, f, generated);
    } else {
      SumCongruence(g, (t: RosettaTx) => 0, generated);
      SumOfZeros(generated);
    }
  }

  /** Every served transaction has operations, all of them indexed from zero, with a non-zero amount, an observed
      account and a status, and comes from a generated one of the same hash by selection. */
  lemma {:induction false} ServedTransactionsAreProper(net: Network, generated: seq<RosettaTx>, served: RosettaTx)
    returns (source: RosettaTx)
    requires FinalizeBlock(net, generated).Some?
    requires served in FinalizeBlock(net, generated).value
    ensures source in generated && source.hash == served.hash
    ensures Finalize(net, source.operations) == Some(served.operations)
    ensures served.operations != []
    ensures forall i :: 0 <= i < |served.operations| ==>
              var op := served.operations[i];
              op.index == Some(i) && op.amount.value != 0 && Observed(net, op.account) && op.status.Some?
  {
    var finalized := MapAll(FinalizeTx(net), generated).value;
    MapAllElements(FinalizeTx(net), generated);
    var i :| 0 <= i < |finalized| && finalized[i] == served;
    source := generated[i];
    FinalIsSelection(net, source.operations);
    FinalIsProper(net, source.operations);
  }

  // ---------------------------------------------------------------- one instance per shard

  /** What the instances of "shards" serve together for the same generated transactions. */
  function ServedByInstances(net: Network, shards: seq<nat>, generated: seq<RosettaTx>, currency: Currency): int
    requires forall t :: t in generated ==> forall op :: op in t.operations ==> net.toPubKey(op.account).Some?
  {
    if shards == [] then 0
    else
      ServedByInstances(net, shards[..|shards| - 1], generated, currency)
      + (match FinalizeBlock(InstanceFor(net, shards[|shards| - 1]), generated)
         case None => 0
         case Some(served) => SumOf(NetOfTx(currency), served))
  }

  function NetOfTxWithin(net: Network, shards: seq<nat>, currency: Currency): RosettaTx -> int {
    (t: RosettaTx) => SumOf(NetWithin(net, shards, currency), t.operations)
  }

  lemma {:induction false} ServedByOneInstance(
      net: Network, shard: nat, generated: seq<RosettaTx>, currency: Currency, f: RosettaTx -> int)
    requires forall t :: t in generated ==> forall op :: op in t.operations ==> net.toPubKey(op.account).Some?
    requires forall t :: t in generated && Finalize(InstanceFor(net, shard), t.operations).Some? ==>
               f(t) == Net(Finalize(InstanceFor(net, shard), t.operations).value, currency)
    ensures FinalizeBlock(InstanceFor(net, shard), generated).Some?
    ensures SumOf(NetOfTx(currency), FinalizeBlock(InstanceFor(net, shard), generated).value) == SumOf(f, generated)
  {
    var instance := InstanceFor(net, shard);
    MapAllElements(FinalizeTx(instance), generated);
    forall i | 0 <= i < |generated| ensures FinalizeTx(instance)(generated[i]).Some? {
      assert generated[i] in generated;
    }
    var finalized := MapAll(FinalizeTx(instance), generated).value;
    SumOfFiltered(NetOfTx(currency), HasOperations(), NetOfTx(currency), finalized);
    SumOfRead(FinalizeTx(instance), generated, NetOfTx(currency), f);
  }

  /** Instances of distinct shards serve, between them and for every currency, exactly the unfiltered total over
      the accounts of their shards. */
  lemma {:induction false} InstancesPartitionBlock(
      net: Network, shards: seq<nat>, generated: seq<RosettaTx>, currency: Currency)
    requires forall i, j :: 0 <= i < j < |shards| ==> shards[i] != shards[j]
    requires forall t :: t in generated ==> forall op :: op in t.operations ==> net.toPubKey(op.account).Some?
    ensures ServedByInstances(net, shards, generated, currency)
         == SumOf(NetOfTxWithin(net, shards, currency), generated)
  {
    var within := NetOfTxWithin(net, shards, currency);
    if shards == [] {
      forall t | t in generated ensures within(t) == 0 {
        InstancesPartitionOperations(net, shards, t.operations, currency);
      }
      SumCongruence(within, (t: RosettaTx) => 0, generated);
      SumOfZeros(generated);
    } else {
      var init, last := shards[..|shards| - 1], shards[|shards| - 1];
      var ofInit := NetOfTxWithin(net, init, currency);
      var ofLast := (t: RosettaTx) => within(t) - ofInit(t);
      InstancesPartitionBlock(net, init, generated, currency);
      forall t | t in generated && Finalize(InstanceFor(net, last), t.operations).Some?
        ensures ofLast(t) == Net(Finalize(InstanceFor(net, last), t.operations).value, currency)
      {
        InstancesPartitionOperations(net, shards, t.operations, currency);
        InstancesPartitionOperations(net, init, t.operations, currency);
      }
      ServedByOneInstance(net, last, generated, currency, ofLast);
      SumAdds(ofInit, ofLast, within, generated);
    }
  }
}
