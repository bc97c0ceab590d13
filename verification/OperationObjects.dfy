/** Operations as objects, whose index and status are overwritten in place by the filters
    (server/services/operations.go). */
module OperationObjects {
  import opened Encoding
  import opened Network
  import opened Sequences
  import opened Operations

  class Operation {
    const kind: OpKind
    const account: string
    const amount: Amount
    var status: Option<Status>
    var index: Option<nat>

    constructor (op: Op)
      ensures View() == op
    {
      kind := op.kind;
      account := op.account;
      amount := op.amount;
      status := op.status;
      index := op.index;
    }

    ghost function View(): Op
      reads this
    {
      Op(kind, account, amount, status, index)
    }
  }

  ghost function Views(operations: seq<Operation>): (views: seq<Op>)
    reads operations
    ensures |views| == |operations|
    ensures forall i :: 0 <= i < |operations| ==> views[i] == operations[i].View()
  {
    seq(|operations|, i requires 0 <= i < |operations| reads operations => operations[i].View())
  }

  ghost predicate Distinct(operations: seq<Operation>) {
    forall i, j :: 0 <= i < j < |operations| ==> operations[i] != operations[j]
  }

  /** New objects for a list of operations. */
  method NewOperations(values: seq<Op>) returns (operations: seq<Operation>)
    ensures forall k :: 0 <= k < |operations| ==> fresh(operations[k])
    ensures Distinct(operations)
    ensures Views(operations) == values
  {
    operations := [];
    for i := 0 to |values|
      invariant forall k :: 0 <= k < |operations| ==> fresh(operations[k])
      invariant Distinct(operations)
      invariant Views(operations) == values[..i]
    {
      var operation := new Operation(values[i]);
      operations := operations + [operation];
    }
  }

  /** In place; a list that held an object twice would end up with a wrong index. */
  method IndexOperations(operations: seq<Operation>)
    requires Distinct(operations)
    modifies operations
    ensures Views(operations) == Indexed(old(Views(operations)))
  {
    for i := 0 to |operations|
      invariant forall j :: 0 <= j < |operations| ==>
                  operations[j].View() == if j < i then old(operations[j].View()).(index := Some(j))
                                          else old(operations[j].View())
    {
      operations[i].index := Some(i);
    }
  }

  lemma {:induction false} OneMore(operations: seq<Operation>, i: nat, found: seq<Operation>)
    requires Distinct(operations) && i < |operations|
    requires Distinct(found) && forall k :: 0 <= k < |found| ==> found[k] in operations[..i]
    ensures Distinct(found + [operations[i]])
    ensures Views(found + [operations[i]]) == Views(found) + [operations[i].View()]
    ensures forall k :: 0 <= k <= |found| ==> (found + [operations[i]])[k] in operations[..i + 1]
    ensures forall k :: 0 <= k < |found| ==> found[k] in operations[..i + 1]
  {
    assert operations[..i + 1] == operations[..i] + [operations[i]];
    assert operations[i] !in operations[..i];
  }

  lemma {:induction false} NoneTaken()
    ensures Distinct([])
  {
  }

  /** The operations whose account is observed; None at the first account that cannot be converted. */
  method SelectObserved(net: Network, operations: seq<Operation>) returns (kept: Option<seq<Operation>>)
    requires Distinct(operations)
    ensures kept.Some? <==> Convertible(net, Views(operations))
    ensures kept.Some? ==>
              && Views(kept.value) == Filter(HasObservedAccount(net), Views(operations))
              && Distinct(kept.value)
              && forall k :: 0 <= k < |kept.value| ==> kept.value[k] in operations
  {
    hide Filter, HasObservedAccount, Distinct;
    ghost var views, keep := Views(operations), HasObservedAccount(net);
    var found: seq<Operation> := [];
    FilterNone(keep, views);
    NoneTaken();
    for i := 0 to |operations|
      invariant Views(found) == Filter(keep, views[..i])
      invariant Distinct(found)
      invariant forall k :: 0 <= k < |found| ==> found[k] in operations[..i]
      invariant forall j :: 0 <= j < i ==> net.IsAddressObserved(views[j].account).Some?
    {
      FilterLast(keep, views, i);
      OneMore(operations, i, found);
      ObservedDecision(net, views[i]);
      var shouldInclude := net.IsAddressObserved(operations[i].account);
      if shouldInclude.None? {
        assert views[i] in views;
        return None;
      }
      if shouldInclude.value {
        found := found + [operations[i]];
      }
    }
    assert views[..|operations|] == views && operations[..|operations|] == operations;
    kept := Some(found);
  }

  lemma {:induction false} ObservedDecision(net: Network, op: Op)
    ensures HasObservedAccount(net)(op) <==> net.IsAddressObserved(op.account) == Some(true)
  {
  }

  method FilterOperationsByAddressInPlace(net: Network, operations: seq<Operation>)
    returns (filtered: Option<seq<Operation>>)
    requires Distinct(operations)
    modifies operations
    ensures filtered.Some? <==> FilterOperationsByAddress(net, old(Views(operations))).Some?
    ensures filtered.Some? ==>
              && Views(filtered.value) == FilterOperationsByAddress(net, old(Views(operations))).value
              && Distinct(filtered.value)
              && forall k :: 0 <= k < |filtered.value| ==> filtered.value[k] in operations
  {
    filtered := SelectObserved(net, operations);
    if filtered.Some? {
      IndexOperations(filtered.value);
    }
  }

  method FilterOutOperationsWithZeroAmountInPlace(operations: seq<Operation>) returns (filtered: seq<Operation>)
    requires Distinct(operations)
    modifies operations
    ensures Views(filtered) == FilterOutOperationsWithZeroAmount(old(Views(operations)))
    ensures Distinct(filtered)
    ensures forall k :: 0 <= k < |filtered| ==> filtered[k] in operations
  {
    hide Filter, Distinct;
    ghost var views := Views(operations);
    filtered := [];
    FilterNone(HasAmount(), views);
    NoneTaken();
    for i := 0 to |operations|
      modifies {}
      invariant Views(filtered) == Filter(HasAmount(), views[..i])
      invariant Distinct(filtered)
      invariant forall k :: 0 <= k < |filtered| ==> filtered[k] in operations[..i]
    {
      FilterLast(HasAmount(), views, i);
      OneMore(operations, i, filtered);
      assert views[i] == operations[i].View();
      if operations[i].amount.value != 0 {
        filtered := filtered + [operations[i]];
      }
    }
    assert views[..|operations|] == views && operations[..|operations|] == operations;
    assert forall k :: 0 <= k < |filtered| ==> filtered[k] in operations;
    IndexOperations(filtered);
  }

  method ApplyDefaultStatusOnOperations(operations: seq<Operation>)
    requires Distinct(operations)
    modifies operations
    ensures Views(operations) == WithDefaultStatus(old(Views(operations)))
  {
    for i := 0 to |operations|
      invariant forall j :: 0 <= j < |operations| ==>
                  operations[j].View() == if j < i then DefaultedStatus(old(operations[j].View()))
                                          else old(operations[j].View())
    {
      if operations[i].status.None? {
        operations[i].status := Some(Success);
      }
    }
  }

  class RosettaTransaction {
    const hash: string
    var operations: seq<Operation>
    const metadata: Metadata

    constructor (hash: string, operations: seq<Operation>, metadata: Metadata)
      ensures this.hash == hash && this.operations == operations && this.metadata == metadata
    {
      this.hash := hash;
      this.operations := operations;
      this.metadata := metadata;
    }

    ghost function View(): RosettaTx
      reads this, operations
    {
      RosettaTx(hash, Views(operations), metadata)
    }

    /** The transaction keeps only its final operations. */
    method FinalizeInPlace(net: Network) returns (ok: bool)
      requires Distinct(operations)
      modifies this, operations
      ensures ok <==> Finalize(net, old(View()).operations).Some?
      ensures ok ==> View() == old(View()).(operations := Finalize(net, old(View()).operations).value)
      ensures Distinct(operations)
      ensures forall k :: 0 <= k < |operations| ==> operations[k] in old(operations)
    {
      hide Finalize, Distinct;
      var final := FinalizeOperations(net, operations);
      if final.None? {
        return false;
      }
      operations := final.value;
      return true;
    }
  }

  /** The filters, one after the other. */
  method FinalizeOperations(net: Network, operations: seq<Operation>) returns (final: Option<seq<Operation>>)
    requires Distinct(operations)
    modifies operations
    ensures final.Some? <==> Finalize(net, old(Views(operations))).Some?
    ensures final.Some? ==>
              && Views(final.value) == Finalize(net, old(Views(operations))).value
              && Distinct(final.value)
              && forall k :: 0 <= k < |final.value| ==> final.value[k] in operations
  {
    hide FilterOperationsByAddress, FilterOutOperationsWithZeroAmount, WithDefaultStatus, Distinct;
    var filtered := FilterOperationsByAddressInPlace(net, operations);
    if filtered.None? {
      return None;
    }
    assert forall k :: 0 <= k < |filtered.value| ==> filtered.value[k] in operations;
    var nonZero := FilterOutOperationsWithZeroAmountInPlace(filtered.value);
    assert forall k :: 0 <= k < |nonZero| ==> nonZero[k] in operations;
    ApplyDefaultStatusOnOperations(nonZero);
    return Some(nonZero);
  }

  method CreateGenesisOperationObjects(net: Network, balances: seq<GenesisBalance>)
    returns (operations: Option<seq<Operation>>)
    ensures operations.Some? <==> CreateGenesisOperations(net, balances).Some?
    ensures operations.Some? ==> Views(operations.value) == CreateGenesisOperations(net, balances).value
  {
    var all: seq<Operation> := [];
    ghost var values := GenesisOperations(net, balances);
    for i := 0 to |balances|
      invariant |all| == i && Distinct(all)
      invariant forall k :: 0 <= k < i ==> fresh(all[k]) && all[k].View() == values[k]
    {
      var operation := new Operation(
        NewOp(OpGenesisBalanceMovement, balances[i].address, balances[i].balance, net.nativeCurrency));
      all := all + [operation];
    }
    assert Views(all) == values;
    var filtered := FilterOperationsByAddressInPlace(net, all);
    if filtered.None? {
      return None;
    }
    var kept := filtered.value;
    assert forall k :: 0 <= k < |kept| ==> kept[k] in all;
    ApplyDefaultStatusOnOperations(kept);
    return Some(kept);
  }
}
