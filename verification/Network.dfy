/** What the services ask of the network provider: configuration, currencies, addresses and shards.
    Address conversion, shard computation, contract detection and receipt hashing are parameters. */
module Network {
  import opened Encoding
  import opened Chain

  datatype Currency = Currency(symbol: Bytes, decimals: int)

  datatype Network = Network(
    nativeCurrency: Currency,
    customCurrencies: map<Bytes, Currency>,
    activationEpochSirius: nat,
    activationEpochSpica: nat,
    minGasLimit: nat,
    gasPerDataByte: nat,
    extraGasLimitGuardedTx: nat,
    extraGasLimitRelayedTxV3: nat,
    observedActualShard: nat,
    observedProjectedShard: Option<nat>,
    shouldHandleContracts: bool,
    toAddress: Bytes -> string,
    toPubKey: string -> Option<Bytes>,
    shardOf: Bytes -> nat,
    isContract: Bytes -> bool,
    receiptHash: Receipt -> Option<string>)
  {
    predicate IsReleaseSiriusActive(epoch: nat) {
      epoch >= activationEpochSirius
    }

    predicate IsReleaseSpicaActive(epoch: nat) {
      epoch >= activationEpochSpica
    }

    predicate HasCustomCurrency(symbol: Bytes) {
      symbol in customCurrencies
    }

    /** The currency of an amount of the token "symbol"; unknown ones have no decimals. */
    function CustomCurrency(symbol: Bytes): Currency {
      if symbol in customCurrencies then customCurrencies[symbol] else Currency(symbol, 0)
    }

    /** None when the address cannot be converted, which fails the whole request. */
    function IsAddressObserved(address: string): Option<bool> {
      match toPubKey(address)
      case None => None
      case Some(pubKey) =>
        Some(
          && shardOf(pubKey) == observedActualShard
          && (observedProjectedShard.None?
              || (pubKey != [] && pubKey[|pubKey| - 1] as int == observedProjectedShard.value % 256))
          && (shouldHandleContracts || !isContract(pubKey)))
    }

    /** Addresses that cannot be converted, such as "metachain", count as contracts. */
    predicate IsContractAddress(address: string) {
      toPubKey(address).None? || isContract(toPubKey(address).value)
    }

    /** Gas is counted in 64 bits; only the final product is arbitrarily large. */
    function ComputeTransactionFeeForMoveBalance(tx: Tx): nat {
      var movement := (minGasLimit + gasPerDataByte * |tx.data|) % TWO_TO_THE_64;
      var guarded := if |tx.guardianAddress| > 0 then (movement + extraGasLimitGuardedTx) % TWO_TO_THE_64 else movement;
      var relayed := if IsRelayedTxV3(tx) then (guarded + extraGasLimitRelayedTxV3) % TWO_TO_THE_64 else guarded;
      relayed * tx.gasPrice
    }
  }

  predicate IsRelayedTxV3(tx: Tx) {
    && |tx.relayerAddress| > 0 && |tx.relayerAddress| == |tx.sender|
    && |tx.relayerSignature| > 0 && |tx.relayerSignature| == |tx.signature|
  }

  /** The fee for moving a balance: the gas of the minimum, of the data, of a guardian and of a relayer, where there is
      one, put into 64 bits and paid at the price of the transaction. */
  lemma {:induction false} MoveBalanceFeeExactly(net: Network, tx: Tx)
    ensures net.ComputeTransactionFeeForMoveBalance(tx)
         == (net.minGasLimit + net.gasPerDataByte * |tx.data|
             + (if tx.guardianAddress != "" then net.extraGasLimitGuardedTx else 0)
             + (if && |tx.relayerAddress| > 0 && |tx.relayerAddress| == |tx.sender|
                   && |tx.relayerSignature| > 0 && |tx.relayerSignature| == |tx.signature|
                then net.extraGasLimitRelayedTxV3 else 0))
            % 0x1_0000_0000_0000_0000 * tx.gasPrice
  {
    var movement := net.minGasLimit + net.gasPerDataByte * |tx.data|;
    var guarded := if tx.guardianAddress != "" then net.extraGasLimitGuardedTx else 0;
    var relayed := if IsRelayedTxV3(tx) then net.extraGasLimitRelayedTxV3 else 0;
    WrapOnce(movement, guarded);
    WrapOnce(movement + guarded, relayed);
  }
}
