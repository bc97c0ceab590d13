/** From the protocol's data to the balances that clients see: when a block is served, and what the served operations
    do to each account. */
module ServedBalances {
  import opened Encoding
  import opened Chain
  import opened Network
  import opened Sequences
  import opened Operations
  import opened Transformer
  import opened Observers
  import opened Postings
  import Ledger

  /** A transaction can be shown. */
  predicate IsShowable(net: Network, tx: Tx) {
    && !tx.kind.OtherKind?
    && (tx.kind == Normal && RelaysBeforeSirius(net, tx) ==> tx.inner.Some?)
    && (SignalsError(tx) || forall e :: e in tx.events ==> IsWellFormed(net, tx, e))
  }

  lemma {:induction false} TxIsShownExactly(net: Network, txsInBlock: seq<Tx>, tx: Tx)
    ensures TxToRosettaTx(net, txsInBlock)(tx).Some? <==> IsShowable(net, tx)
  {
    hide OwnOperations, EventOperations, IsWellFormed, MetadataOf;
    OwnOperationsExactly(net, tx, txsInBlock);
    EventsAreReadExactly(net, tx);
  }

  lemma {:induction false} AllAreMapped<S, T>(f: S -> Option<T>, s: seq<S>)
    ensures MapAll(f, s).Some? <==> forall x :: x in s ==> f(x).Some?
  {
    MapAllElements(f, s);
    if forall x :: x in s ==> f(x).Some? {
      forall i | 0 <= i < |s| ensures f(s[i]).Some? {
        assert s[i] in s;
      }
    }
  }

  /** A block can be shown if and only if each transaction that is left after the filters can, and each refund
      receipt has a hash. */
  lemma {:induction false} BlockIsShownExactly(net: Network, txs: seq<Tx>, receipts: seq<Receipt>)
    ensures GenerateBlock(net, txs, receipts).Some? <==>
              && (forall tx :: tx in FilterTransactions(txs) ==> IsShowable(net, tx))
              && (forall r :: r in receipts && r.data == "refundedGas" ==> net.receiptHash(r).Some?)
  {
    hide FilterTransactions, IsShowable, TxToRosettaTx;
    var filtered, refunds := FilterTransactions(txs), Filter(IsRefundReceipt(), receipts);
    AllAreMapped(TxToRosettaTx(net, filtered), filtered);
    AllAreMapped(RefundReceiptToRosettaTx(net), refunds);
    forall tx ensures TxToRosettaTx(net, filtered)(tx).Some? <==> IsShowable(net, tx) {
      TxIsShownExactly(net, filtered, tx);
    }
    forall r | r in receipts && r.data == "refundedGas" ensures r in refunds {
      KeptByFilter(IsRefundReceipt(), receipts, r);
    }
  }

  /** A block is served if and only if it can be shown and all accounts of its operations are addresses. */
  lemma {:induction false} BlockIsServedExactly(net: Network, txs: seq<Tx>, receipts: seq<Receipt>)
    ensures TransformBlock(net, txs, receipts).Some? <==>
              && GenerateBlock(net, txs, receipts).Some?
              && AllTxsConvertible(net, GenerateBlock(net, txs, receipts).value)
  {
    hide GenerateBlock, FinalizeBlock;
    if GenerateBlock(net, txs, receipts).Some? {
      FinalizeBlockSucceedsExactly(net, GenerateBlock(net, txs, receipts).value);
    }
  }

  /** The served operations of a block do to each account in each currency what its transactions, their events and its
      refund receipts say, if the instance serves the account, and nothing otherwise. */
  lemma {:induction false} ServedEffects(
      net: Network, txs: seq<Tx>, receipts: seq<Receipt>, account: string, currency: Currency)
    ensures var served, filtered := TransformBlock(net, txs, receipts), FilterTransactions(txs);
      var book := Book(account, currency, None, false);
      served.Some? ==>
        SumOf(Ledger.EffectOfTx(account, currency), served.value)
        == if IsServed(net, account) then
             SumOf(TxEntries(net, filtered, book), filtered) + SumOf(ReceiptEntries(net, book), receipts)
           else 0
  {
    hide GenerateBlock, FinalizeBlock, FilterTransactions, IsServed, SumOf, TxEntries, ReceiptEntries, Observed;
    if TransformBlock(net, txs, receipts).Some? {
      var generated := GenerateBlock(net, txs, receipts).value;
      var book := Book(account, currency, None, false);
      Ledger.FiltersKeepMeaning(net, generated, account, currency);
      ObservedExactly(net, account);
      BlockPostings(net, txs, receipts, book);
      forall t: RosettaTx ensures Ledger.EffectOfTx(account, currency)(t) == PostedByTx(book)(t) {
        EffectIsPosted(t.operations, account, currency);
      }
      SumCongruence(Ledger.EffectOfTx(account, currency), PostedByTx(book), generated);
    }
  }

  /** The generated transactions have the hashes of the block's transactions, then those of its refund receipts. */
  lemma {:induction false} GeneratedHashes(net: Network, txs: seq<Tx>, receipts: seq<Receipt>)
    requires GenerateBlock(net, txs, receipts).Some?
    ensures var generated := GenerateBlock(net, txs, receipts).value;
      var filtered, refunds := FilterTransactions(txs), Filter(IsRefundReceipt(), receipts);
      && |generated| == |filtered| + |refunds|
      && (forall i :: 0 <= i < |filtered| ==> generated[i].hash == filtered[i].hash)
      && (forall i :: 0 <= i < |refunds| ==> Some(generated[|filtered| + i].hash) == net.receiptHash(refunds[i]))
  {
    hide FilterTransactions, OwnOperations, EventOperations, MetadataOf;
    var filtered, refunds := FilterTransactions(txs), Filter(IsRefundReceipt(), receipts);
    MapAllElements(TxToRosettaTx(net, filtered), filtered);
    MapAllElements(RefundReceiptToRosettaTx(net), refunds);
  }
}
