/** Rosetta operations as values, and what the filters at the end of the pipeline make of a list of them
    (server/services/operations.go). */
module Operations {
  import opened Encoding
  import opened Chain
  import opened Network
  import opened Sequences

  datatype OpKind =
    | OpGenesisBalanceMovement | OpTransfer | OpFee | OpReward | OpScResult | OpFeeRefundAsScResult
    | OpDeveloperRewardsAsScResult | OpDeveloperRewards | OpFeeOfInvalidTx | OpFeeRefund | OpCustomTransfer

  datatype Status = Success | Failure

  datatype Amount = Amount(value: int, currency: Currency)

  datatype Op = Op(kind: OpKind, account: string, amount: Amount, status: Option<Status>, index: Option<nat>)

  datatype MetadataValue =
    | Text(text: string)
    | Number(number: nat)
    | Type(processing: ProcessingType)
    | Data(data: Bytes)

  /** The entries of a transaction's metadata, each under the key of its name. */
  datatype MetadataKey =
    | TimestampKey | ValueKey | NonceKey | TypeOnSourceKey | TypeOnDestinationKey | EpochKey | SenderKey | ReceiverKey
    | SourceShardKey | DestinationShardKey | MiniblockKey | MiniblockTypeKey
    | RelayerKey | OriginalSenderKey | SenderUsernameKey | ReceiverUsernameKey | OriginalTransactionKey
    | PreviousTransactionKey | DataKey | GasPriceKey | GasLimitKey

  type Metadata = map<MetadataKey, MetadataValue>

  datatype RosettaTx = RosettaTx(hash: string, operations: seq<Op>, metadata: Metadata)

  function NewOp(kind: OpKind, account: string, value: int, currency: Currency): Op {
    Op(kind, account, Amount(value, currency), None, None)
  }

  /** "value" leaves one account and arrives at another. */
  function Move(kind: OpKind, from: string, to: string, value: nat, currency: Currency): seq<Op> {
    [NewOp(kind, from, 0 - value, currency), NewOp(kind, to, value, currency)]
  }

  // ---------------------------------------------------------------- filters

  function Indexed(operations: seq<Op>): (indexed: seq<Op>)
    ensures |indexed| == |operations|
    ensures forall i :: 0 <= i < |operations| ==> indexed[i] == operations[i].(index := Some(i))
  {
    seq(|operations|, i requires 0 <= i < |operations| => operations[i].(index := Some(i)))
  }

  function DefaultedStatus(op: Op): Op {
    if op.status.None? then op.(status := Some(Success)) else op
  }

  function WithDefaultStatus(operations: seq<Op>): (defaulted: seq<Op>)
    ensures |defaulted| == |operations|
    ensures forall i :: 0 <= i < |operations| ==> defaulted[i] == DefaultedStatus(operations[i])
  {
    seq(|operations|, i requires 0 <= i < |operations| => DefaultedStatus(operations[i]))
  }

  predicate Observed(net: Network, account: string) {
    net.IsAddressObserved(account) == Some(true)
  }

  function HasObservedAccount(net: Network): Op -> bool {
    (op: Op) => Observed(net, op.account)
  }

  function HasAmount(): Op -> bool {
    (op: Op) => op.amount.value != 0
  }

  predicate Convertible(net: Network, operations: seq<Op>) {
    forall op :: op in operations ==> net.IsAddressObserved(op.account).Some?
  }

  /** None when some account cannot be converted. */
  function FilterOperationsByAddress(net: Network, operations: seq<Op>): Option<seq<Op>> {
    if Convertible(net, operations) then Some(Indexed(Filter(HasObservedAccount(net), operations))) else None
  }

  function FilterOutOperationsWithZeroAmount(operations: seq<Op>): seq<Op> {
    Indexed(Filter(HasAmount(), operations))
  }

  /** The operations of one transaction, as they are finally served. */
  function Finalize(net: Network, operations: seq<Op>): Option<seq<Op>> {
    match FilterOperationsByAddress(net, operations)
    case None => None
    case Some(observed) => Some(WithDefaultStatus(FilterOutOperationsWithZeroAmount(observed)))
  }

  // ---------------------------------------------------------------- effects

  predicate Counts(op: Op) {
    op.status != Some(Failure)
  }

  /** What an operation does to the balance of "account" in "currency". */
  function EffectOn(account: string, currency: Currency): Op -> int {
    (op: Op) => if Counts(op) && op.account == account && op.amount.currency == currency then op.amount.value else 0
  }

  function Effect(operations: seq<Op>, account: string, currency: Currency): int {
    SumOf(EffectOn(account, currency), operations)
  }

  /** What an operation does to the total supply of "currency". */
  function NetIn(currency: Currency): Op -> int {
    (op: Op) => if Counts(op) && op.amount.currency == currency then op.amount.value else 0
  }

  function Net(operations: seq<Op>, currency: Currency): int {
    SumOf(NetIn(currency), operations)
  }

  lemma {:induction false} SumPointwise<S>(f: S -> int, a: seq<S>, b: seq<S>)
    requires |a| == |b|
    requires forall i :: 0 <= i < |a| ==> f(a[i]) == f(b[i])
    ensures SumOf(f, a) == SumOf(f, b)
  {
    if a != [] {
      SumPointwise(f, a[..|a| - 1], b[..|b| - 1]);
    }
  }

  lemma {:induction false} FilterTests(net: Network)
    ensures forall op: Op :: HasObservedAccount(net)(op) <==> Observed(net, op.account)
    ensures forall op: Op :: HasAmount()(op) <==> op.amount.value != 0
  {
  }

  /** Whatever sum ignores indices, a missing status and zero amounts can be taken after the filters,
      over the observed operations. */
  lemma {:induction false} SumOverFinal(net: Network, operations: seq<Op>, f: Op -> int, g: Op -> int)
    requires Finalize(net, operations).Some?
    requires forall op: Op, i: Option<nat> :: f(op.(index := i)) == f(op)
    requires forall op: Op :: f(DefaultedStatus(op)) == f(op)
    requires forall op: Op :: op.amount.value == 0 ==> f(op) == 0
    requires forall op: Op :: op in operations ==> g(op) == if Observed(net, op.account) then f(op) else 0
    ensures SumOf(f, Finalize(net, operations).value) == SumOf(g, operations)
  {
    hide Filter, SumOf, HasObservedAccount, HasAmount, Convertible, Observed;
    FilterTests(net);
    var observed := Filter(HasObservedAccount(net), operations);
    var nonZero := Filter(HasAmount(), Indexed(observed));
    SumOfFiltered(f, HasObservedAccount(net), g, operations);
    SumPointwise(f, Indexed(observed), observed);
    SumOfFiltered(f, HasAmount(), f, Indexed(observed));
    SumPointwise(f, Indexed(nonZero), nonZero);
    SumPointwise(f, WithDefaultStatus(Indexed(nonZero)), Indexed(nonZero));
  }

  /** For every observed account and currency, the filters keep the summed effect;
      accounts that are not observed have none left. */
  lemma {:induction false} FinalizeKeepsEffects(net: Network, operations: seq<Op>, account: string, currency: Currency)
    requires Finalize(net, operations).Some?
    ensures Effect(Finalize(net, operations).value, account, currency)
         == if Observed(net, account) then Effect(operations, account, currency) else 0
  {
    var f := EffectOn(account, currency);
    var g := (op: Op) => if Observed(net, op.account) then f(op) else 0;
    SumOverFinal(net, operations, f, g);
    if Observed(net, account) {
      SumCongruence(g, f, operations);
    } else {
      SumCongruence(g, (op: Op) => 0, operations);
      SumOfZeros(operations);
    }
  }

  lemma {:induction false} SumOfZeros<S>(s: seq<S>)
    ensures SumOf((x: S) => 0, s) == 0
  {
    if s != [] {
      SumOfZeros(s[..|s| - 1]);
    }
  }

  // ---------------------------------------------------------------- shape of the final list

  predicate StrictlyIncreasing(at: seq<nat>) {
    forall i, j :: 0 <= i < j < |at| ==> at[i] < at[j]
  }

  /** The positions that a filter keeps. */
  function Positions<S>(keep: S -> bool, s: seq<S>): seq<nat> {
    if s == [] then []
    else Positions(keep, s[..|s| - 1]) + (if keep(s[|s| - 1]) then [|s| - 1] else [])
  }

  lemma {:induction false} PositionsSelect<S>(keep: S -> bool, s: seq<S>)
    ensures |Positions(keep, s)| == |Filter(keep, s)|
    ensures forall i :: 0 <= i < |Positions(keep, s)| ==>
              Positions(keep, s)[i] < |s| && Filter(keep, s)[i] == s[Positions(keep, s)[i]]
  {
    if s != [] {
      PositionsSelect(keep, s[..|s| - 1]);
    }
  }

  lemma {:induction false} PositionsIncrease<S>(keep: S -> bool, s: seq<S>)
    ensures StrictlyIncreasing(Positions(keep, s))
  {
    if s != [] {
      PositionsIncrease(keep, s[..|s| - 1]);
      PositionsSelect(keep, s[..|s| - 1]);
    }
  }

  lemma {:induction false} PositionsComplete<S>(keep: S -> bool, s: seq<S>, j: nat)
    ensures j in Positions(keep, s) <==> j < |s| && keep(s[j])
  {
    if s != [] {
      PositionsComplete(keep, s[..|s| - 1], j);
    }
  }

  /** Where the operations of the final list come from. */
  function FinalPositions(net: Network, operations: seq<Op>): seq<nat> {
    var first := Positions(HasObservedAccount(net), operations);
    var second := Positions(HasAmount(), Indexed(Filter(HasObservedAccount(net), operations)));
    seq(|second|, i requires 0 <= i < |second| => if second[i] < |first| then first[second[i]] else 0)
  }

  /** Filtering and indexing: each result is the operation at its position, with the new index. */
  lemma {:induction false} SelectedAndIndexed(keep: Op -> bool, operations: seq<Op>)
    ensures var at, kept := Positions(keep, operations), Indexed(Filter(keep, operations));
      && |at| == |kept| && StrictlyIncreasing(at)
      && forall i :: 0 <= i < |at| ==> at[i] < |operations| && kept[i] == operations[at[i]].(index := Some(i))
  {
    hide Positions, Filter, StrictlyIncreasing;
    PositionsSelect(keep, operations);
    PositionsIncrease(keep, operations);
  }

  /** The final list is an order-preserving selection of the generated one: kind, account and amount are kept,
      a missing status is success, and indices count from zero although they are overwritten twice. */
  lemma {:induction false} FinalIsSelection(net: Network, operations: seq<Op>)
    requires Finalize(net, operations).Some?
    ensures var final, at := Finalize(net, operations).value, FinalPositions(net, operations);
      && |at| == |final| && StrictlyIncreasing(at)
      && forall i :: 0 <= i < |at| ==>
           at[i] < |operations| && final[i] == DefaultedStatus(operations[at[i]]).(index := Some(i))
  {
    hide Positions, Filter, HasObservedAccount, HasAmount, Convertible;
    var observed := Indexed(Filter(HasObservedAccount(net), operations));
    var nonZero := Indexed(Filter(HasAmount(), observed));
    SelectedAndIndexed(HasObservedAccount(net), operations);
    SelectedAndIndexed(HasAmount(), observed);
    assert Finalize(net, operations).value == WithDefaultStatus(nonZero);
  }

  /** It selects exactly the operations with a non-zero amount on an observed account. */
  lemma {:induction false} FinalSelectsExactly(net: Network, operations: seq<Op>, j: nat)
    requires Finalize(net, operations).Some?
    requires j < |operations|
    ensures j in FinalPositions(net, operations) <==>
              Observed(net, operations[j].account) && operations[j].amount.value != 0
  {
    var observed := Filter(HasObservedAccount(net), operations);
    var first, second := Positions(HasObservedAccount(net), operations), Positions(HasAmount(), Indexed(observed));
    PositionsComplete(HasObservedAccount(net), operations, j);
    FinalPositionsCompose(net, operations, j);
    PositionsSelect(HasObservedAccount(net), operations);
    hide Positions, Filter, FinalPositions;
    if j in first {
      var i :| 0 <= i < |first| && first[i] == j;
      PositionsComplete(HasAmount(), Indexed(observed), i);
      if i in second {
        var k :| 0 <= k < |second| && second[k] == i;
        assert first[second[k]] == j;
      }
    }
    forall k | 0 <= k < |second| && second[k] < |first| && first[second[k]] == j
      ensures j in first && operations[j].amount.value != 0
    {
      PositionsComplete(HasAmount(), Indexed(observed), second[k]);
    }
  }

  lemma {:induction false} FinalPositionsCompose(net: Network, operations: seq<Op>, j: nat)
    ensures var observed := Filter(HasObservedAccount(net), operations);
      var first, second := Positions(HasObservedAccount(net), operations), Positions(HasAmount(), Indexed(observed));
      j in FinalPositions(net, operations)
      <==> exists k :: 0 <= k < |second| && second[k] < |first| && first[second[k]] == j
  {
    hide Positions, Filter;
    var observed := Filter(HasObservedAccount(net), operations);
    var first, second := Positions(HasObservedAccount(net), operations), Positions(HasAmount(), Indexed(observed));
    var at := FinalPositions(net, operations);
    PositionsSelect(HasObservedAccount(net), operations);
    PositionsSelect(HasAmount(), Indexed(observed));
    forall k | 0 <= k < |second| ensures second[k] < |first| && at[k] == first[second[k]] {
    }
  }

  /** Nothing is left on an account that is not observed, and nothing without amount or status. */
  lemma {:induction false} FinalIsProper(net: Network, operations: seq<Op>)
    requires Finalize(net, operations).Some?
    ensures forall op :: op in Finalize(net, operations).value ==>
              Observed(net, op.account) && op.amount.value != 0 && op.status.Some?
  {
    hide Positions, Filter, FinalPositions, Finalize;
    var final := Finalize(net, operations).value;
    FinalIsSelection(net, operations);
    forall i | 0 <= i < |final|
      ensures Observed(net, final[i].account) && final[i].amount.value != 0 && final[i].status.Some?
    {
      FinalSelectsExactly(net, operations, FinalPositions(net, operations)[i]);
    }
  }

  // ---------------------------------------------------------------- one instance per shard

  /** The instance that observes "shard", handles contracts, and has no projected shard. */
  function InstanceFor(net: Network, shard: nat): Network {
    net.(observedActualShard := shard, observedProjectedShard := None, shouldHandleContracts := true)
  }

  function ShardOfAccount(net: Network, account: string): Option<nat> {
    match net.toPubKey(account)
    case None => None
    case Some(pubKey) => Some(net.shardOf(pubKey))
  }

  lemma {:induction false} ObservedByItsShard(net: Network, shard: nat, account: string)
    ensures Observed(InstanceFor(net, shard), account) <==> ShardOfAccount(net, account) == Some(shard)
    ensures InstanceFor(net, shard).IsAddressObserved(account).Some? <==> net.toPubKey(account).Some?
  {
  }

  /** Over all instances together, currency by currency. */
  function NetOverInstances(net: Network, shards: seq<nat>, operations: seq<Op>, currency: Currency): int
    requires forall op :: op in operations ==> net.toPubKey(op.account).Some?
  {
    if shards == [] then 0
    else
      var last := InstanceFor(net, shards[|shards| - 1]);
      NetOverInstances(net, shards[..|shards| - 1], operations, currency)
      + Net(Finalize(last, operations).value, currency)
  }

  function NetWithin(net: Network, shards: seq<nat>, currency: Currency): Op -> int {
    (op: Op) =>
      var shard := ShardOfAccount(net, op.account);
      if shard.Some? && shard.value in shards then NetIn(currency)(op) else 0
  }

  /** Instances of distinct shards serve each operation of these shards exactly once between them:
      their totals add up to the unfiltered total over the accounts of these shards. */
  lemma {:induction false} InstancesPartitionOperations(
      net: Network, shards: seq<nat>, operations: seq<Op>, currency: Currency)
    requires forall i, j :: 0 <= i < j < |shards| ==> shards[i] != shards[j]
    requires forall op :: op in operations ==> net.toPubKey(op.account).Some?
    ensures NetOverInstances(net, shards, operations, currency)
         == SumOf(NetWithin(net, shards, currency), operations)
  {
    if shards == [] {
      SumCongruence(NetWithin(net, shards, currency), (op: Op) => 0, operations);
      SumOfZeros(operations);
    } else {
      var init, last := shards[..|shards| - 1], shards[|shards| - 1];
      var instance := InstanceFor(net, last);
      InstancesPartitionOperations(net, init, operations, currency);
      var atLast := (op: Op) => if Observed(instance, op.account) then NetIn(currency)(op) else 0;
      SumOverFinal(instance, operations, NetIn(currency), atLast);
      forall op: Op
        ensures NetWithin(net, shards, currency)(op) == NetWithin(net, init, currency)(op) + atLast(op)
      {
        OneMoreShard(net, shards, currency, op);
      }
      SumAdds(NetWithin(net, init, currency), atLast, NetWithin(net, shards, currency), operations);
    }
  }

  lemma {:induction false} OneMoreShard(net: Network, shards: seq<nat>, currency: Currency, op: Op)
    requires shards != []
    requires forall i, j :: 0 <= i < j < |shards| ==> shards[i] != shards[j]
    ensures var init, last := shards[..|shards| - 1], shards[|shards| - 1];
      NetWithin(net, shards, currency)(op)
      == NetWithin(net, init, currency)(op)
         + (if Observed(InstanceFor(net, last), op.account) then NetIn(currency)(op) else 0)
  {
    var init, last := shards[..|shards| - 1], shards[|shards| - 1];
    assert shards == init + [last];
    assert last !in init;
    ObservedByItsShard(net, last, op.account);
  }

  /** Every account of these shards is observed by exactly one of the instances. */
  lemma {:induction false} ObservedByExactlyOneInstance(net: Network, shards: seq<nat>, account: string)
    requires forall i, j :: 0 <= i < j < |shards| ==> shards[i] != shards[j]
    requires ShardOfAccount(net, account).Some? && ShardOfAccount(net, account).value in shards
    ensures exists i :: 0 <= i < |shards| && Observed(InstanceFor(net, shards[i]), account)
              && forall j :: 0 <= j < |shards| && Observed(InstanceFor(net, shards[j]), account) ==> j == i
  {
    var i :| 0 <= i < |shards| && shards[i] == ShardOfAccount(net, account).value;
    forall j | 0 <= j < |shards|
      ensures Observed(InstanceFor(net, shards[j]), account) <==> j == i
    {
      ObservedByItsShard(net, shards[j], account);
    }
  }

  // ---------------------------------------------------------------- genesis

  datatype GenesisBalance = GenesisBalance(address: string, balance: nat)

  function GenesisOperations(net: Network, balances: seq<GenesisBalance>): (operations: seq<Op>)
    ensures |operations| == |balances|
    ensures forall i :: 0 <= i < |balances| ==>
              operations[i] == NewOp(OpGenesisBalanceMovement, balances[i].address, balances[i].balance,
                                     net.nativeCurrency)
  {
    seq(|balances|, i requires 0 <= i < |balances| =>
      NewOp(OpGenesisBalanceMovement, balances[i].address, balances[i].balance, net.nativeCurrency))
  }

  /** Genesis operations are filtered by address only. */
  function CreateGenesisOperations(net: Network, balances: seq<GenesisBalance>): Option<seq<Op>> {
    match FilterOperationsByAddress(net, GenesisOperations(net, balances))
    case None => None
    case Some(observed) => Some(WithDefaultStatus(observed))
  }

  function BalanceOf(account: string): GenesisBalance -> int {
    (b: GenesisBalance) => if b.address == account then b.balance else 0
  }

  /** The genesis block gives every observed account exactly its genesis balances, and nothing to others. */
  lemma {:induction false} GenesisGivesBalances(net: Network, balances: seq<GenesisBalance>, account: string)
    requires CreateGenesisOperations(net, balances).Some?
    ensures Effect(CreateGenesisOperations(net, balances).value, account, net.nativeCurrency)
         == if Observed(net, account) then SumOf(BalanceOf(account), balances) else 0
  {
    var operations := GenesisOperations(net, balances);
    var observed := Filter(HasObservedAccount(net), operations);
    var f := EffectOn(account, net.nativeCurrency);
    var g := (op: Op) => if Observed(net, op.account) then f(op) else 0;
    hide Filter, SumOf;
    SumOfFiltered(f, HasObservedAccount(net), g, operations);
    SumPointwise(f, Indexed(observed), observed);
    SumPointwise(f, WithDefaultStatus(Indexed(observed)), Indexed(observed));
    if Observed(net, account) {
      SumCongruence(g, f, operations);
      SumOfImages(BalanceOf(account), f, balances, operations);
    } else {
      SumCongruence(g, (op: Op) => 0, operations);
      SumOfZeros(operations);
    }
  }

  lemma {:induction false} SumOfImages<S, T>(f: S -> int, g: T -> int, a: seq<S>, b: seq<T>)
    requires |a| == |b| && forall i :: 0 <= i < |a| ==> f(a[i]) == g(b[i])
    ensures SumOf(f, a) == SumOf(g, b)
  {
    if a != [] {
      SumOfImages(f, g, a[..|a| - 1], b[..|b| - 1]);
    }
  }
}
