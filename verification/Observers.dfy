/** Which instance serves what: by shard, with or without contracts, and by the last byte of the key
    (server/provider/networkProvider.go, IsAddressObserved). */
module Observers {
  import opened Encoding
  import opened Network
  import opened Sequences
  import opened Operations
  import opened Transformer

  predicate IsOnContract(net: Network, account: string) {
    net.toPubKey(account).Some? && net.isContract(net.toPubKey(account).value)
  }

  predicate HasKey(net: Network, account: string) {
    net.toPubKey(account).Some? && net.toPubKey(account).value != []
  }

  /** The last byte of the key, which says in which projected shard the account is. */
  function LastByte(net: Network, account: string): int
    requires HasKey(net, account)
  {
    var key := net.toPubKey(account).value;
    key[|key| - 1] as int
  }

  /** The account is in the shard, in the projected shard if there is one, and no contract unless these are handled. */
  predicate IsServed(net: Network, account: string) {
    && net.toPubKey(account).Some?
    && net.shardOf(net.toPubKey(account).value) == net.observedActualShard
    && (net.observedProjectedShard.Some? ==>
          HasKey(net, account) && LastByte(net, account) == net.observedProjectedShard.value % 256)
    && (IsOnContract(net, account) ==> net.shouldHandleContracts)
  }

  ghost predicate AllConvertible(net: Network, operations: seq<Op>) {
    forall op :: op in operations ==> net.toPubKey(op.account).Some?
  }

  ghost predicate AllTxsConvertible(net: Network, generated: seq<RosettaTx>) {
    forall t :: t in generated ==> AllConvertible(net, t.operations)
  }

  lemma {:induction false} ObservedExactly(net: Network, account: string)
    ensures Observed(net, account) <==> IsServed(net, account)
    ensures net.IsAddressObserved(account).Some? <==> net.toPubKey(account).Some?
  {
  }

  /** The operations of a transaction can be served if and only if all their accounts are addresses. */
  lemma {:induction false} FinalizeSucceedsExactly(net: Network, operations: seq<Op>)
    ensures Finalize(net, operations).Some? <==> AllConvertible(net, operations)
  {
    forall op | op in operations
      ensures net.IsAddressObserved(op.account).Some? <==> net.toPubKey(op.account).Some?
    {
      ObservedExactly(net, op.account);
    }
  }

  lemma {:induction false} FinalizeBlockSucceedsExactly(net: Network, generated: seq<RosettaTx>)
    ensures FinalizeBlock(net, generated).Some? <==> AllTxsConvertible(net, generated)
  {
    hide Finalize, AllConvertible;
    MapAllElements(FinalizeTx(net), generated);
    forall t ensures FinalizeTx(net)(t).Some? <==> AllConvertible(net, t.operations) {
      FinalizeSucceedsExactly(net, t.operations);
    }
    if forall i :: 0 <= i < |generated| ==> FinalizeTx(net)(generated[i]).Some? {
      forall t | t in generated ensures AllConvertible(net, t.operations) {
        var i :| 0 <= i < |generated| && generated[i] == t;
      }
    }
    if AllTxsConvertible(net, generated) {
      forall i | 0 <= i < |generated| ensures FinalizeTx(net)(generated[i]).Some? {
        assert generated[i] in generated;
      }
    }
  }

  /** Sums that do not look at index, missing status and zero amounts. */
  ghost predicate IsPlain(f: Op -> int) {
    && (forall op: Op, i: Option<nat> :: f(op.(index := i)) == f(op))
    && (forall op: Op :: f(DefaultedStatus(op)) == f(op))
    && (forall op: Op :: op.amount.value == 0 ==> f(op) == 0)
  }

  function ServedPart(net: Network, f: Op -> int): Op -> int {
    (op: Op) => if IsServed(net, op.account) then f(op) else 0
  }

  /** What an instance serves of a sum is the part of the accounts that it serves. */
  lemma {:induction false} ServesItsPart(net: Network, operations: seq<Op>, f: Op -> int)
    requires AllConvertible(net, operations) && IsPlain(f)
    ensures Finalize(net, operations).Some?
    ensures SumOf(f, Finalize(net, operations).value) == SumOf(ServedPart(net, f), operations)
  {
    hide Finalize, SumOf, DefaultedStatus;
    FinalizeSucceedsExactly(net, operations);
    forall op: Op ensures ServedPart(net, f)(op) == if Observed(net, op.account) then f(op) else 0 {
      ObservedExactly(net, op.account);
    }
    SumOverFinal(net, operations, f, ServedPart(net, f));
  }

  lemma {:induction false} ServesOnlyItsAccounts(net: Network, operations: seq<Op>)
    requires Finalize(net, operations).Some?
    ensures forall op :: op in Finalize(net, operations).value ==> IsServed(net, op.account)
  {
    hide Finalize, Observed, IsServed;
    FinalIsProper(net, operations);
    forall op | op in Finalize(net, operations).value ensures IsServed(net, op.account) {
      ObservedExactly(net, op.account);
    }
  }

  /** The sum over all operations of a list of transactions. */
  function SumOfTx(f: Op -> int): RosettaTx -> int {
    (t: RosettaTx) => SumOf(f, t.operations)
  }

  /** The same for a whole block, although transactions without operations are dropped. */
  lemma {:induction false} ServesItsPartOfBlock(net: Network, generated: seq<RosettaTx>, f: Op -> int)
    requires AllTxsConvertible(net, generated) && IsPlain(f)
    ensures FinalizeBlock(net, generated).Some?
    ensures SumOf(SumOfTx(f), FinalizeBlock(net, generated).value) == SumOf(SumOfTx(ServedPart(net, f)), generated)
  {
    FinalizeBlockSucceedsExactly(net, generated);
    var finalized := MapAll(FinalizeTx(net), generated).value;
    SumOfFiltered(SumOfTx(f), HasOperations(), SumOfTx(f), finalized);
    forall t | t in generated && FinalizeTx(net)(t).Some?
      ensures SumOfTx(f)(FinalizeTx(net)(t).value) == SumOfTx(ServedPart(net, f))(t)
    {
      hide Finalize;
      ServesItsPart(net, t.operations, f);
    }
    SumOfRead(FinalizeTx(net), generated, SumOfTx(f), SumOfTx(ServedPart(net, f)));
  }

  lemma {:induction false} ServesOnlyItsAccountsOfBlock(net: Network, generated: seq<RosettaTx>)
    requires FinalizeBlock(net, generated).Some?
    ensures forall t, op :: t in FinalizeBlock(net, generated).value && op in t.operations ==> IsServed(net, op.account)
  {
    hide Finalize, IsServed;
    var finalized := MapAll(FinalizeTx(net), generated).value;
    MapAllElements(FinalizeTx(net), generated);
    forall t, op | t in FinalizeBlock(net, generated).value && op in t.operations ensures IsServed(net, op.account) {
      var i :| 0 <= i < |finalized| && finalized[i] == t;
      ServesOnlyItsAccounts(net, generated[i].operations);
    }
  }

  // ---------------------------------------------------------------- contracts

  function WithContracts(net: Network): Network {
    net.(shouldHandleContracts := true)
  }

  function WithoutContracts(net: Network): Network {
    net.(shouldHandleContracts := false)
  }

  /** The change of the supply of "currency", contracts apart. */
  function NetOffContracts(net: Network, currency: Currency): Op -> int {
    (op: Op) => if IsOnContract(net, op.account) then 0 else NetIn(currency)(op)
  }

  /** The instance that does not handle contracts serves what the one that does serves on accounts that are no
      contracts, and nothing on contracts. */
  lemma {:induction false} ContractsAreLeftOut(net: Network, operations: seq<Op>, currency: Currency)
    requires AllConvertible(net, operations)
    ensures var with, without := Finalize(WithContracts(net), operations), Finalize(WithoutContracts(net), operations);
      && with.Some? && without.Some?
      && Net(without.value, currency) == SumOf(NetOffContracts(net, currency), with.value)
      && forall op :: op in without.value ==> !IsOnContract(net, op.account)
  {
    hide Finalize, SumOf;
    var f, offContracts := NetIn(currency), NetOffContracts(net, currency);
    ServesItsPart(WithoutContracts(net), operations, f);
    ServesItsPart(WithContracts(net), operations, offContracts);
    SumCongruence(ServedPart(WithoutContracts(net), f), ServedPart(WithContracts(net), offContracts), operations);
    ServesOnlyItsAccounts(WithoutContracts(net), operations);
  }

  lemma {:induction false} ContractsAreLeftOutOfBlock(net: Network, generated: seq<RosettaTx>, currency: Currency)
    requires AllTxsConvertible(net, generated)
    ensures var with := FinalizeBlock(WithContracts(net), generated);
      var without := FinalizeBlock(WithoutContracts(net), generated);
      && with.Some? && without.Some?
      && SumOf(SumOfTx(NetIn(currency)), without.value) == SumOf(SumOfTx(NetOffContracts(net, currency)), with.value)
      && forall t, op :: t in without.value && op in t.operations ==> !IsOnContract(net, op.account)
  {
    hide FinalizeBlock, SumOf;
    var f, offContracts := NetIn(currency), NetOffContracts(net, currency);
    ServesItsPartOfBlock(WithoutContracts(net), generated, f);
    ServesItsPartOfBlock(WithContracts(net), generated, offContracts);
    forall t: RosettaTx
      ensures SumOfTx(ServedPart(WithoutContracts(net), f))(t)
           == SumOfTx(ServedPart(WithContracts(net), offContracts))(t)
    {
      SumCongruence(ServedPart(WithoutContracts(net), f), ServedPart(WithContracts(net), offContracts), t.operations);
    }
    SumCongruence(SumOfTx(ServedPart(WithoutContracts(net), f)),
                  SumOfTx(ServedPart(WithContracts(net), offContracts)), generated);
    ServesOnlyItsAccountsOfBlock(WithoutContracts(net), generated);
  }

  // ---------------------------------------------------------------- projected shards

  function Projected(net: Network, shard: nat): Network {
    net.(observedProjectedShard := Some(shard))
  }

  function Unprojected(net: Network): Network {
    net.(observedProjectedShard := None)
  }

  /** The change of the supply of "currency" on accounts whose key is not empty. */
  function NetWithKey(net: Network, currency: Currency): Op -> int {
    (op: Op) => if HasKey(net, op.account) then NetIn(currency)(op) else 0
  }

  /** The same on accounts whose last byte is below "n". */
  function NetBelow(net: Network, currency: Currency, n: nat): Op -> int {
    (op: Op) => if HasKey(net, op.account) && LastByte(net, op.account) < n then NetIn(currency)(op) else 0
  }

  /** What the instances of the first "n" projected shards serve of one transaction. */
  function ServedOfOne(net: Network, operations: seq<Op>, currency: Currency, n: nat): int
    requires AllConvertible(net, operations)
  {
    if n == 0 then 0
    else
      ServedOfOne(net, operations, currency, n - 1)
      + (match Finalize(Projected(net, n - 1), operations)
         case None => 0
         case Some(served) => Net(served, currency))
  }

  lemma {:induction false} ServedOfOneUpTo(net: Network, operations: seq<Op>, currency: Currency, n: nat)
    requires AllConvertible(net, operations) && n <= 256
    ensures ServedOfOne(net, operations, currency, n)
         == SumOf(ServedPart(Unprojected(net), NetBelow(net, currency, n)), operations)
  {
    hide Finalize, SumOf;
    var below := ServedPart(Unprojected(net), NetBelow(net, currency, n));
    if n == 0 {
      forall op: Op ensures below(op) == 0 {
        NoneBelowZero(net, currency, op);
      }
      SumCongruence(below, (op: Op) => 0, operations);
      SumOfZeros(operations);
    } else {
      var before := ServedPart(Unprojected(net), NetBelow(net, currency, n - 1));
      var last := ServedPart(Projected(net, n - 1), NetIn(currency));
      ServedOfOneUpTo(net, operations, currency, n - 1);
      ServesItsPart(Projected(net, n - 1), operations, NetIn(currency));
      forall op: Op ensures below(op) == before(op) + last(op) {
        OneMoreProjection(net, currency, n, op);
      }
      SumAdds(before, last, below, operations);
    }
  }

  /** The instances of the 256 projected shards serve of a transaction what the unprojected instance serves on accounts
      with a key, each operation in the instance of the last byte of its account's key. */
  lemma {:induction false} ProjectionsPartition(net: Network, operations: seq<Op>, currency: Currency)
    requires AllConvertible(net, operations)
    ensures var whole := Finalize(Unprojected(net), operations);
      && whole.Some?
      && ServedOfOne(net, operations, currency, 256) == SumOf(NetWithKey(net, currency), whole.value)
    ensures forall shard: nat :: shard < 256 ==>
              var served := Finalize(Projected(net, shard), operations);
              && served.Some?
              && forall op :: op in served.value ==> HasKey(net, op.account) && LastByte(net, op.account) == shard
  {
    hide Finalize, SumOf;
    var below := ServedPart(Unprojected(net), NetBelow(net, currency, 256));
    var withKey := ServedPart(Unprojected(net), NetWithKey(net, currency));
    ServedOfOneUpTo(net, operations, currency, 256);
    WithKeyIsPlain(net, currency);
    ServesItsPart(Unprojected(net), operations, NetWithKey(net, currency));
    SumCongruence(below, withKey, operations);
    forall shard: nat | shard < 256
      ensures var served := Finalize(Projected(net, shard), operations);
        && served.Some?
        && forall op :: op in served.value ==> HasKey(net, op.account) && LastByte(net, op.account) == shard
    {
      FinalizeSucceedsExactly(Projected(net, shard), operations);
      ServesOnlyItsAccounts(Projected(net, shard), operations);
      assert shard % 256 == shard;
    }
  }

  /** What the instances of the first "n" projected shards serve together. */
  function ServedByProjections(net: Network, generated: seq<RosettaTx>, currency: Currency, n: nat): int
    requires AllTxsConvertible(net, generated)
  {
    if n == 0 then 0
    else
      ServedByProjections(net, generated, currency, n - 1)
      + (match FinalizeBlock(Projected(net, n - 1), generated)
         case None => 0
         case Some(served) => SumOf(SumOfTx(NetIn(currency)), served))
  }

  lemma {:induction false} WithKeyIsPlain(net: Network, currency: Currency)
    ensures IsPlain(NetWithKey(net, currency))
  {
    var f, inAll := NetWithKey(net, currency), NetIn(currency);
    forall op: Op, i: Option<nat> ensures f(op.(index := i)) == f(op) {
      assert inAll(op.(index := i)) == inAll(op);
    }
    forall op: Op ensures f(DefaultedStatus(op)) == f(op) {
      assert inAll(DefaultedStatus(op)) == inAll(op);
    }
    forall op: Op | op.amount.value == 0 ensures f(op) == 0 {
      assert inAll(op) == 0;
    }
  }

  lemma {:induction false} ProjectionsUpTo(net: Network, generated: seq<RosettaTx>, currency: Currency, n: nat)
    requires AllTxsConvertible(net, generated) && n <= 256
    ensures ServedByProjections(net, generated, currency, n)
         == SumOf(SumOfTx(ServedPart(Unprojected(net), NetBelow(net, currency, n))), generated)
  {
    hide FinalizeBlock, SumOf;
    var below := ServedPart(Unprojected(net), NetBelow(net, currency, n));
    if n == 0 {
      forall op: Op ensures below(op) == 0 {
        NoneBelowZero(net, currency, op);
      }
      forall t: RosettaTx ensures SumOfTx(below)(t) == 0 {
        SumCongruence(below, (op: Op) => 0, t.operations);
        SumOfZeros(t.operations);
      }
      SumCongruence(SumOfTx(below), (t: RosettaTx) => 0, generated);
      SumOfZeros(generated);
    } else {
      var before := ServedPart(Unprojected(net), NetBelow(net, currency, n - 1));
      var last := ServedPart(Projected(net, n - 1), NetIn(currency));
      ProjectionsUpTo(net, generated, currency, n - 1);
      ServesItsPartOfBlock(Projected(net, n - 1), generated, NetIn(currency));
      forall op: Op ensures below(op) == before(op) + last(op) {
        OneMoreProjection(net, currency, n, op);
      }
      forall t: RosettaTx ensures SumOfTx(below)(t) == SumOfTx(before)(t) + SumOfTx(last)(t) {
        SumAdds(before, last, below, t.operations);
      }
      SumAdds(SumOfTx(before), SumOfTx(last), SumOfTx(below), generated);
    }
  }

  lemma {:induction false} NoneBelowZero(net: Network, currency: Currency, op: Op)
    ensures ServedPart(Unprojected(net), NetBelow(net, currency, 0))(op) == 0
  {
    assert HasKey(net, op.account) ==> LastByte(net, op.account) >= 0;
    assert NetBelow(net, currency, 0)(op) == 0;
  }

  lemma {:induction false} OneMoreProjection(net: Network, currency: Currency, n: nat, op: Op)
    requires 1 <= n <= 256
    ensures ServedPart(Unprojected(net), NetBelow(net, currency, n))(op)
         == ServedPart(Unprojected(net), NetBelow(net, currency, n - 1))(op)
            + ServedPart(Projected(net, n - 1), NetIn(currency))(op)
  {
    hide NetIn;
    assert (n - 1) % 256 == n - 1;
  }

  /** The instances of the 256 projected shards serve together what the unprojected instance serves on accounts with
      a key, each operation in the instance of the last byte of its account's key. */
  lemma {:induction false} ProjectionsPartitionBlock(net: Network, generated: seq<RosettaTx>, currency: Currency)
    requires AllTxsConvertible(net, generated)
    ensures var whole := FinalizeBlock(Unprojected(net), generated);
      && whole.Some?
      && ServedByProjections(net, generated, currency, 256) == SumOf(SumOfTx(NetWithKey(net, currency)), whole.value)
    ensures forall shard: nat :: shard < 256 ==>
              var served := FinalizeBlock(Projected(net, shard), generated);
              && served.Some?
              && forall t, op :: t in served.value && op in t.operations ==>
                   HasKey(net, op.account) && LastByte(net, op.account) == shard
  {
    hide FinalizeBlock, SumOf;
    var below := ServedPart(Unprojected(net), NetBelow(net, currency, 256));
    var withKey := ServedPart(Unprojected(net), NetWithKey(net, currency));
    ProjectionsUpTo(net, generated, currency, 256);
    WithKeyIsPlain(net, currency);
    ServesItsPartOfBlock(Unprojected(net), generated, NetWithKey(net, currency));
    forall t: RosettaTx ensures SumOfTx(below)(t) == SumOfTx(withKey)(t) {
      SumCongruence(below, withKey, t.operations);
    }
    SumCongruence(SumOfTx(below), SumOfTx(withKey), generated);
    forall shard: nat | shard < 256
      ensures var served := FinalizeBlock(Projected(net, shard), generated);
        && served.Some?
        && forall t, op :: t in served.value && op in t.operations ==>
             HasKey(net, op.account) && LastByte(net, op.account) == shard
    {
      FinalizeBlockSucceedsExactly(Projected(net, shard), generated);
      ServesOnlyItsAccountsOfBlock(Projected(net, shard), generated);
      assert shard % 256 == shard;
    }
  }
}
