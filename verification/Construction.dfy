/** The construction flow: from an intent, given as operations, to an unsigned transaction and back
    (server/services/constructionService.go, constructionOptions.go, constructionMetadata.go,
    constructionServiceFee.go). Amounts are decimal text here, as on the wire. */
module Construction {
  import opened Encoding
  import opened Chain
  import opened Network

  const ESDT_TRANSFER: Bytes := "ESDTTransfer"
  const TRANSACTION_VERSION := 1
  const AMOUNT_ZERO := "0"

  datatype Error =
    | CannotPrepareSender | CannotPrepareReceiver | CannotPrepareAmount | CannotPrepareCurrency
    | MissingSender | MissingReceiver | MissingAmount | MissingCurrencySymbol | DataWithCustomCurrency
    | OfflineMode | UnableToGetAccount | InsufficientGasLimit | GasPriceTooLow
    | MissingGasLimit | MissingGasPrice | BadVersion | MissingChainID
    | CannotParseTransfer | CannotDecodeIdentifier | CannotDecodeAmount

  datatype Result<+T> = Success(value: T) | Failure(error: Error) {
    predicate IsFailure() {
      Failure?
    }

    function PropagateFailure<U>(): Result<U>
      requires Failure?
    {
      Failure(error)
    }

    function Extract(): T
      requires Success?
    {
      value
    }
  }

  datatype Config = Config(
    net: Network,
    isOffline: bool,
    networkID: string,
    minGasPrice: nat,
    gasPriceModifier: real,
    gasLimitCustomTransfer: nat)

  datatype OpType = Transfer | CustomTransfer | OtherType(name: string)

  datatype Operation = Operation(index: nat, kind: OpType, account: string, value: string, currency: Currency)

  /** The optional overrides of /construction/preprocess; empty text, zero and no data mean "not given". */
  datatype PreprocessMetadata = PreprocessMetadata(
    sender: string, receiver: string, amount: string, currencySymbol: Bytes, gasLimit: nat, gasPrice: nat, data: Bytes)

  datatype Options = Options(
    sender: string, receiver: string, amount: string, currencySymbol: Bytes, gasLimit: nat, gasPrice: nat, data: Bytes)

  datatype Metadata = Metadata(
    sender: string, receiver: string, nonce: nat, amount: string, currencySymbol: Bytes, gasLimit: nat, gasPrice: nat,
    data: Bytes, chainID: string, version: int)

  datatype Transaction = Transaction(
    sender: string, receiver: string, nonce: nat, value: string, gasLimit: nat, gasPrice: nat, data: Bytes,
    chainID: string, version: int)

  // ---------------------------------------------------------------- preprocess

  function Validate(options: Options, nativeSymbol: Bytes): Result<Options> {
    if options.sender == "" then Failure(MissingSender)
    else if options.receiver == "" then Failure(MissingReceiver)
    else if IsZeroAmount(options.amount) then Failure(MissingAmount)
    else if options.currencySymbol == [] then Failure(MissingCurrencySymbol)
    else if options.data != [] && options.currencySymbol != nativeSymbol then Failure(DataWithCustomCurrency)
    else Success(options)
  }

  /** What is not overridden comes from the operations: sender, amount and currency from the first one,
      the receiver from the second. */
  function Preprocess(config: Config, operations: seq<Operation>, metadata: PreprocessMetadata): Result<Options> {
    if metadata.sender == "" && |operations| == 0 then Failure(CannotPrepareSender)
    else if metadata.receiver == "" && |operations| < 2 then Failure(CannotPrepareReceiver)
    else if metadata.amount == "" && |operations| == 0 then Failure(CannotPrepareAmount)
    else if metadata.currencySymbol == [] && |operations| == 0 then Failure(CannotPrepareCurrency)
    else
      Validate(
        Options(
          if metadata.sender != "" then metadata.sender else operations[0].account,
          if metadata.receiver != "" then metadata.receiver else operations[1].account,
          if metadata.amount != "" then metadata.amount else GetMagnitudeOfAmount(operations[0].value),
          if metadata.currencySymbol != [] then metadata.currencySymbol else operations[0].currency.symbol,
          metadata.gasLimit, metadata.gasPrice, metadata.data),
        config.net.nativeCurrency.symbol)
  }

  /** What the later steps need: two accounts, an amount and a currency, and free data for native transfers only. */
  predicate IsComplete(config: Config, options: Options) {
    && options.sender != "" && options.receiver != ""
    && !IsZeroAmount(options.amount) && options.currencySymbol != []
    && (options.data != [] ==> options.currencySymbol == config.net.nativeCurrency.symbol)
  }

  /** Whatever the client gives explicitly is taken over. */
  predicate Respects(options: Options, metadata: PreprocessMetadata) {
    && (metadata.sender == "" || options.sender == metadata.sender)
    && (metadata.receiver == "" || options.receiver == metadata.receiver)
    && (metadata.amount == "" || options.amount == metadata.amount)
    && (metadata.currencySymbol == [] || options.currencySymbol == metadata.currencySymbol)
    && options.gasLimit == metadata.gasLimit && options.gasPrice == metadata.gasPrice && options.data == metadata.data
  }

  /** Where the client is silent, the operations speak: the first for sender, amount and currency, the second for
      the receiver. */
  predicate FillsFrom(options: Options, metadata: PreprocessMetadata, operations: seq<Operation>) {
    && (metadata.sender == "" ==> |operations| >= 1 && options.sender == operations[0].account)
    && (metadata.receiver == "" ==> |operations| >= 2 && options.receiver == operations[1].account)
    && (metadata.amount == "" ==> |operations| >= 1 && options.amount == GetMagnitudeOfAmount(operations[0].value))
    && (metadata.currencySymbol == [] ==>
          |operations| >= 1 && options.currencySymbol == operations[0].currency.symbol)
  }

  function AsOverrides(options: Options): PreprocessMetadata {
    PreprocessMetadata(options.sender, options.receiver, options.amount, options.currencySymbol, options.gasLimit,
                       options.gasPrice, options.data)
  }

  /** Options that come out are complete and respect the client, and they stand on their own: given back as
      overrides they come out again, whatever the operations. */
  lemma {:induction false} OptionsStandAlone(
      config: Config, operations: seq<Operation>, metadata: PreprocessMetadata, others: seq<Operation>)
    ensures var result := Preprocess(config, operations, metadata);
      result.Success? ==>
        && IsComplete(config, result.value) && Respects(result.value, metadata)
        && Preprocess(config, others, AsOverrides(result.value)) == result
  {
    if Preprocess(config, operations, metadata).Success? {
      assert Preprocess(config, operations, metadata).value.amount != "";
    }
  }

  /** The options are determined by what the client gives and by the operations. */
  lemma {:induction false} PreprocessFindsTheOptions(
      config: Config, operations: seq<Operation>, metadata: PreprocessMetadata, options: Options)
    ensures IsComplete(config, options) && Respects(options, metadata) && FillsFrom(options, metadata, operations)
            <==> Preprocess(config, operations, metadata) == Success(options)
  {
  }

  /** Some options can be found exactly when the preparation succeeds. */
  lemma {:induction false} PreprocessSucceedsExactly(
      config: Config, operations: seq<Operation>, metadata: PreprocessMetadata)
    ensures var result := Preprocess(config, operations, metadata);
      && (result.Success? <==>
            exists options :: IsComplete(config, options) && Respects(options, metadata)
                              && FillsFrom(options, metadata, operations))
      && (result.Success? ==>
            IsComplete(config, result.value) && Respects(result.value, metadata)
            && FillsFrom(result.value, metadata, operations))
  {
    hide IsComplete, Respects, FillsFrom, Preprocess;
    forall options
      ensures IsComplete(config, options) && Respects(options, metadata) && FillsFrom(options, metadata, operations)
              <==> Preprocess(config, operations, metadata) == Success(options)
    {
      PreprocessFindsTheOptions(config, operations, metadata, options);
    }
  }

  /** Only the first two operations are ever looked at. */
  lemma {:induction false} OnlyTwoOperationsMatter(
      config: Config, operations: seq<Operation>, metadata: PreprocessMetadata)
    requires |operations| >= 2
    ensures Preprocess(config, operations, metadata) == Preprocess(config, operations[..2], metadata)
  {
  }

  /** Field by field. Success means that some complete options respect the client and agree with the operations
      where the client is silent, and then it is these that come out. */
  method ConstructionPreprocess(config: Config, operations: seq<Operation>, metadata: PreprocessMetadata)
    returns (result: Result<Options>)
    ensures result == Preprocess(config, operations, metadata)
    ensures result.Success? <==>
              exists options :: IsComplete(config, options) && Respects(options, metadata)
                                && FillsFrom(options, metadata, operations)
    ensures result.Success? ==>
              IsComplete(config, result.value) && Respects(result.value, metadata)
              && FillsFrom(result.value, metadata, operations)
  {
    hide IsComplete, Respects, FillsFrom, Validate;
    PreprocessSucceedsExactly(config, operations, metadata);
    var noOperationProvided := |operations| == 0;
    var lessThanTwoOperationsProvided := |operations| < 2;
    var options := Options("", "", "", [], 0, 0, []);
    if |metadata.sender| > 0 {
      options := options.(sender := metadata.sender);
    } else {
      if noOperationProvided { return Failure(CannotPrepareSender); }
      options := options.(sender := operations[0].account);
    }
    if |metadata.receiver| > 0 {
      options := options.(receiver := metadata.receiver);
    } else {
      if lessThanTwoOperationsProvided { return Failure(CannotPrepareReceiver); }
      options := options.(receiver := operations[1].account);
    }
    if |metadata.amount| > 0 {
      options := options.(amount := metadata.amount);
    } else {
      if noOperationProvided { return Failure(CannotPrepareAmount); }
      options := options.(amount := GetMagnitudeOfAmount(operations[0].value));
    }
    if |metadata.currencySymbol| > 0 {
      options := options.(currencySymbol := metadata.currencySymbol);
    } else {
      if noOperationProvided { return Failure(CannotPrepareCurrency); }
      options := options.(currencySymbol := operations[0].currency.symbol);
    }
    if metadata.gasLimit > 0 {
      options := options.(gasLimit := metadata.gasLimit);
    }
    if metadata.gasPrice > 0 {
      options := options.(gasPrice := metadata.gasPrice);
    }
    if |metadata.data| > 0 {
      options := options.(data := metadata.data);
    }
    return Validate(options, config.net.nativeCurrency.symbol);
  }

  // ---------------------------------------------------------------- fees

  datatype FeeComponents = FeeComponents(fee: nat, gasLimit: nat, gasPrice: nat)

  predicate IsNative(config: Config, symbol: Bytes) {
    symbol == config.net.nativeCurrency.symbol
  }

  /** What moving the data takes, before it is put into 64 bits. */
  function FullMovementGas(config: Config, data: Bytes): nat {
    config.net.minGasLimit + config.net.gasPerDataByte * |data|
  }

  /** Gas limits are 64-bit numbers, and their sums wrap around. */
  function MovementGasLimit(config: Config, data: Bytes): nat {
    FullMovementGas(config, data) % TWO_TO_THE_64
  }

  function ExecutionGasLimit(config: Config, symbol: Bytes): nat {
    if IsNative(config, symbol) then 0 else config.gasLimitCustomTransfer
  }

  function EstimatedGasLimit(config: Config, symbol: Bytes, data: Bytes): nat {
    (MovementGasLimit(config, data) + ExecutionGasLimit(config, symbol)) % TWO_TO_THE_64
  }

  /** Movement and execution gas add up without wrapping around. */
  predicate EstimateFits(config: Config, symbol: Bytes, data: Bytes) {
    MovementGasLimit(config, data) + ExecutionGasLimit(config, symbol) < TWO_TO_THE_64
  }

  predicate MovementFits(config: Config, data: Bytes) {
    FullMovementGas(config, data) < TWO_TO_THE_64
  }

  function CoalesceGasLimit(options: Options, estimated: nat): nat {
    if options.gasLimit == 0 then estimated else options.gasLimit
  }

  function CoalesceGasPrice(options: Options, minGasPrice: nat): nat {
    if options.gasPrice == 0 then minGasPrice else options.gasPrice
  }

  /** The discounted price of execution, rounded down. */
  function ExecutionGasPrice(gasPrice: nat, modifier: real): (price: nat)
    requires modifier >= 0.0
  {
    assert gasPrice as real * modifier >= 0.0;
    (gasPrice as real * modifier).Floor
  }

  function ComputeFee(movementGasLimit: nat, executionGasLimit: nat, gasPrice: nat, modifier: real): nat
    requires modifier >= 0.0
  {
    movementGasLimit * gasPrice + executionGasLimit * ExecutionGasPrice(gasPrice, modifier)
  }

  function ComputeFeeComponents(config: Config, options: Options, data: Bytes): Result<FeeComponents>
    requires config.gasPriceModifier >= 0.0
  {
    var estimated := EstimatedGasLimit(config, options.currencySymbol, data);
    var gasLimit := CoalesceGasLimit(options, estimated);
    var gasPrice := CoalesceGasPrice(options, config.minGasPrice);
    if gasLimit < estimated then Failure(InsufficientGasLimit)
    else if gasPrice < config.minGasPrice then Failure(GasPriceTooLow)
    else
      Success(FeeComponents(
        ComputeFee(MovementGasLimit(config, data), ExecutionGasLimit(config, options.currencySymbol),
                   gasPrice, config.gasPriceModifier),
        gasLimit, gasPrice))
  }

  lemma {:induction false} DiscountLowersPrice(gasPrice: nat, modifier: real)
    requires 0.0 <= modifier <= 1.0
    ensures ExecutionGasPrice(gasPrice, modifier) <= gasPrice
  {
    assert gasPrice as real * modifier <= gasPrice as real * 1.0;
  }

  lemma {:induction false} AcceptedComponents(config: Config, options: Options, data: Bytes)
    requires config.gasPriceModifier >= 0.0
    requires ComputeFeeComponents(config, options, data).Success?
    ensures var c := ComputeFeeComponents(config, options, data).value;
      && EstimatedGasLimit(config, options.currencySymbol, data) <= c.gasLimit
      && (options.gasLimit == 0 ==> c.gasLimit == EstimatedGasLimit(config, options.currencySymbol, data))
      && config.minGasPrice <= c.gasPrice == CoalesceGasPrice(options, config.minGasPrice)
      && c.fee == MovementGasLimit(config, data) * c.gasPrice
                  + ExecutionGasLimit(config, options.currencySymbol)
                    * ExecutionGasPrice(c.gasPrice, config.gasPriceModifier)
  {
    hide MovementGasLimit, ExecutionGasLimit, ExecutionGasPrice, EstimatedGasLimit;
  }

  /** The estimate is the sum of both gas limits, or what is left of it when the sum wraps around. */
  lemma {:induction false} EstimateOnceWrapped(config: Config, symbol: Bytes, data: Bytes)
    requires ExecutionGasLimit(config, symbol) < TWO_TO_THE_64
    ensures EstimatedGasLimit(config, symbol, data)
         == MovementGasLimit(config, data) + ExecutionGasLimit(config, symbol)
            - (if EstimateFits(config, symbol, data) then 0 else TWO_TO_THE_64)
  {
    hide ExecutionGasLimit, FullMovementGas;
  }

  lemma {:induction false} MovementWhenItFits(config: Config, data: Bytes)
    ensures MovementFits(config, data) ==> MovementGasLimit(config, data) == FullMovementGas(config, data)
    ensures !MovementFits(config, data) ==>
              MovementGasLimit(config, data) + TWO_TO_THE_64 <= FullMovementGas(config, data)
  {
    hide FullMovementGas;
  }

  /** However the sums wrap on the way, the estimate is the whole sum, wrapped once. */
  lemma {:induction false} EstimateExactly(config: Config, symbol: Bytes, data: Bytes)
    ensures EstimatedGasLimit(config, symbol, data)
         == (config.net.minGasLimit + config.net.gasPerDataByte * |data|
             + (if symbol == config.net.nativeCurrency.symbol then 0 else config.gasLimitCustomTransfer))
            % 0x1_0000_0000_0000_0000
  {
    WrapOnce(FullMovementGas(config, data), ExecutionGasLimit(config, symbol));
  }

  /** The fee of an accepted request: movement gas at the full price, and execution gas, only for tokens, at the
      discounted price rounded down. */
  lemma {:induction false} FeeExactly(config: Config, options: Options, data: Bytes) returns (executionPrice: nat)
    requires config.gasPriceModifier >= 0.0
    requires ComputeFeeComponents(config, options, data).Success?
    ensures var c := ComputeFeeComponents(config, options, data).value;
      && c.gasPrice == (if options.gasPrice == 0 then config.minGasPrice else options.gasPrice)
      && executionPrice as real <= c.gasPrice as real * config.gasPriceModifier < (executionPrice + 1) as real
      && c.fee == (config.net.minGasLimit + config.net.gasPerDataByte * |data|) % 0x1_0000_0000_0000_0000 * c.gasPrice
                  + (if options.currencySymbol == config.net.nativeCurrency.symbol then 0
                     else config.gasLimitCustomTransfer * executionPrice)
  {
    var c := ComputeFeeComponents(config, options, data).value;
    executionPrice := ExecutionGasPrice(c.gasPrice, config.gasPriceModifier);
  }

  predicate PaysForMovement(config: Config, data: Bytes, c: FeeComponents) {
    FullMovementGas(config, data) * config.minGasPrice <= c.fee
  }

  predicate IsCovered(c: FeeComponents) {
    c.fee <= c.gasLimit * c.gasPrice
  }

  /** An accepted request pays at least for moving its data at the minimum price, as long as the movement gas fits
      into 64 bits, and at most its gas limit at its gas price, as long as the estimate does. */
  lemma {:induction false} FeeBounds(config: Config, options: Options, data: Bytes)
    requires 0.0 <= config.gasPriceModifier <= 1.0
    requires ExecutionGasLimit(config, options.currencySymbol) < TWO_TO_THE_64
    requires ComputeFeeComponents(config, options, data).Success?
    ensures MovementFits(config, data) ==>
              PaysForMovement(config, data, ComputeFeeComponents(config, options, data).value)
    ensures EstimateFits(config, options.currencySymbol, data) ==>
              IsCovered(ComputeFeeComponents(config, options, data).value)
  {
    hide *;
    if MovementFits(config, data) {
      PaysWhenMovementFits(config, options, data);
    }
    if EstimateFits(config, options.currencySymbol, data) {
      CoveredWhenEstimateFits(config, options, data);
    }
  }

  lemma {:induction false} PaysWhenMovementFits(config: Config, options: Options, data: Bytes)
    requires config.gasPriceModifier >= 0.0
    requires ComputeFeeComponents(config, options, data).Success? && MovementFits(config, data)
    ensures PaysForMovement(config, data, ComputeFeeComponents(config, options, data).value)
  {
    hide ExecutionGasPrice, ExecutionGasLimit, EstimatedGasLimit, FullMovementGas, ComputeFeeComponents,
         MovementGasLimit, MovementFits;
    var c := ComputeFeeComponents(config, options, data).value;
    AcceptedComponents(config, options, data);
    MovementWhenItFits(config, data);
    FeeAbove(MovementGasLimit(config, data), ExecutionGasLimit(config, options.currencySymbol), config.minGasPrice,
             c.gasPrice, ExecutionGasPrice(c.gasPrice, config.gasPriceModifier));
  }

  lemma {:induction false} CoveredWhenEstimateFits(config: Config, options: Options, data: Bytes)
    requires 0.0 <= config.gasPriceModifier <= 1.0
    requires ExecutionGasLimit(config, options.currencySymbol) < TWO_TO_THE_64
    requires ComputeFeeComponents(config, options, data).Success?
    requires EstimateFits(config, options.currencySymbol, data)
    ensures IsCovered(ComputeFeeComponents(config, options, data).value)
  {
    hide ExecutionGasPrice, ExecutionGasLimit, EstimatedGasLimit, ComputeFeeComponents, MovementGasLimit, EstimateFits;
    var c := ComputeFeeComponents(config, options, data).value;
    AcceptedComponents(config, options, data);
    EstimateOnceWrapped(config, options.currencySymbol, data);
    DiscountLowersPrice(c.gasPrice, config.gasPriceModifier);
    FeeBelow(MovementGasLimit(config, data), ExecutionGasLimit(config, options.currencySymbol), c.gasPrice,
             ExecutionGasPrice(c.gasPrice, config.gasPriceModifier), c.gasLimit);
  }

  lemma {:induction false} FeeAbove(
      movement: nat, execution: nat, minPrice: nat, price: nat, executionPrice: nat)
    requires minPrice <= price
    ensures movement * minPrice <= movement * price + execution * executionPrice
  {
    MulMonotone(movement, minPrice, price);
  }

  lemma {:induction false} FeeBelow(movement: nat, execution: nat, price: nat, executionPrice: nat, limit: nat)
    requires executionPrice <= price && movement + execution <= limit
    ensures movement * price + execution * executionPrice <= limit * price
  {
    MulMonotone(execution, executionPrice, price);
    MulMonotone(price, movement + execution, limit);
  }

  lemma {:induction false} MulMinus(a: nat, b: nat, p: nat)
    requires b <= a
    ensures (a - b) * p == a * p - b * p
  {
  }

  lemma {:induction false} WrappedFeeIsAbove(movement: nat, missing: nat, price: nat, executionFee: nat)
    requires 0 < missing <= movement && price > 0
    ensures movement * price + executionFee > (movement - missing) * price
  {
    MulMinus(movement, missing, price);
    MulMonotone(price, 1, missing);
    assert missing * price == price * missing;
  }

  /** A request that leaves the gas limit open is covered if and only if its estimate does not wrap around, or its
      price is zero. */
  lemma {:induction false} OpenRequestIsCoveredExactly(config: Config, options: Options, data: Bytes)
    requires 0.0 <= config.gasPriceModifier <= 1.0
    requires ExecutionGasLimit(config, options.currencySymbol) < TWO_TO_THE_64
    requires options.gasLimit == 0 && ComputeFeeComponents(config, options, data).Success?
    ensures var c := ComputeFeeComponents(config, options, data).value;
      IsCovered(c) <==> EstimateFits(config, options.currencySymbol, data) || c.gasPrice == 0
  {
    hide ExecutionGasPrice, ExecutionGasLimit, EstimatedGasLimit, MovementGasLimit, ComputeFeeComponents;
    var c := ComputeFeeComponents(config, options, data).value;
    var movement, execution := MovementGasLimit(config, data), ExecutionGasLimit(config, options.currencySymbol);
    var executionPrice := ExecutionGasPrice(c.gasPrice, config.gasPriceModifier);
    FeeBounds(config, options, data);
    AcceptedComponents(config, options, data);
    EstimateOnceWrapped(config, options.currencySymbol, data);
    DiscountLowersPrice(c.gasPrice, config.gasPriceModifier);
    if !EstimateFits(config, options.currencySymbol, data) && c.gasPrice > 0 {
      WrappedFeeIsAbove(movement, TWO_TO_THE_64 - execution, c.gasPrice, execution * executionPrice);
    }
  }

  /** Every request for a currency and data that is accepted. */
  ghost predicate AllCovered(config: Config, symbol: Bytes, data: Bytes)
    requires config.gasPriceModifier >= 0.0
  {
    forall options: Options ::
      options.currencySymbol == symbol && ComputeFeeComponents(config, options, data).Success? ==>
        IsCovered(ComputeFeeComponents(config, options, data).value)
  }

  ghost predicate AllPayForMovement(config: Config, symbol: Bytes, data: Bytes)
    requires config.gasPriceModifier >= 0.0
  {
    forall options: Options ::
      options.currencySymbol == symbol && ComputeFeeComponents(config, options, data).Success? ==>
        PaysForMovement(config, data, ComputeFeeComponents(config, options, data).value)
  }

  /** All accepted requests for a currency and data are covered if and only if the estimate does not wrap around. */
  lemma {:induction false} AllCoveredExactly(config: Config, symbol: Bytes, data: Bytes)
    requires 0.0 <= config.gasPriceModifier <= 1.0
    requires ExecutionGasLimit(config, symbol) < TWO_TO_THE_64
    ensures AllCovered(config, symbol, data) <==> EstimateFits(config, symbol, data)
  {
    hide IsCovered, EstimateFits, ExecutionGasLimit, EstimatedGasLimit, ComputeFee;
    if EstimateFits(config, symbol, data) {
      forall options: Options
        | options.currencySymbol == symbol && ComputeFeeComponents(config, options, data).Success?
        ensures IsCovered(ComputeFeeComponents(config, options, data).value)
      {
        FeeBounds(config, options, data);
      }
    } else {
      var options := Options("", "", "", symbol, 0, config.minGasPrice + 1, []);
      OpenRequestIsCoveredExactly(config, options, data);
      assert !IsCovered(ComputeFeeComponents(config, options, data).value);
    }
  }

  lemma {:induction false} WrappedMovementIsNotPaid(
      full: nat, movement: nat, execution: nat, price: nat, executionPrice: nat)
    requires movement + TWO_TO_THE_64 <= full && execution < TWO_TO_THE_64 && executionPrice <= price && price > 0
    ensures movement * price + execution * executionPrice < full * price
  {
    MulMonotone(execution, executionPrice, price);
    MulMonotone(price, movement + execution + 1, full);
    assert price * (movement + execution + 1) == movement * price + execution * price + price;
  }

  /** All accepted requests for a currency and data pay for moving the data at the minimum price if and only if the
      movement gas fits into 64 bits, or the minimum price is zero. */
  lemma {:induction false} AllPayForMovementExactly(config: Config, symbol: Bytes, data: Bytes)
    requires 0.0 <= config.gasPriceModifier <= 1.0
    requires ExecutionGasLimit(config, symbol) < TWO_TO_THE_64
    ensures AllPayForMovement(config, symbol, data) <==> MovementFits(config, data) || config.minGasPrice == 0
  {
    hide ExecutionGasLimit, EstimatedGasLimit, MovementGasLimit, ComputeFee, FullMovementGas, ExecutionGasPrice;
    if MovementFits(config, data) {
      forall options: Options
        | options.currencySymbol == symbol && ComputeFeeComponents(config, options, data).Success?
        ensures PaysForMovement(config, data, ComputeFeeComponents(config, options, data).value)
      {
        FeeBounds(config, options, data);
      }
    } else if config.minGasPrice > 0 {
      var options := Options("", "", "", symbol, 0, 0, []);
      AcceptedComponents(config, options, data);
      MovementWhenItFits(config, data);
      DiscountLowersPrice(config.minGasPrice, config.gasPriceModifier);
      WrappedMovementIsNotPaid(FullMovementGas(config, data), MovementGasLimit(config, data),
                               ExecutionGasLimit(config, symbol), config.minGasPrice,
                               ExecutionGasPrice(config.minGasPrice, config.gasPriceModifier));
      assert !PaysForMovement(config, data, ComputeFeeComponents(config, options, data).value);
    }
  }

  lemma {:induction false} MulMonotone(a: nat, x: int, y: int)
    requires x <= y
    ensures a * x <= a * y
  {
  }

  /** Once the estimate does wrap, a request is accepted whose fee is above its gas limit times its gas price. */
  lemma {:induction false} WrappedEstimateBreaksUpperBound(config: Config, options: Options)
    requires config.net.minGasLimit == TWO_TO_THE_64 - 1 && config.gasLimitCustomTransfer == 2
    requires config.gasPriceModifier == 1.0 && config.minGasPrice == 1
    requires options.currencySymbol != config.net.nativeCurrency.symbol
    requires options.gasLimit == 0 && options.gasPrice == 0
    ensures var r := ComputeFeeComponents(config, options, []);
      r.Success? && r.value.fee > r.value.gasLimit * r.value.gasPrice
  {
    assert MovementGasLimit(config, []) == TWO_TO_THE_64 - 1;
  }

  /** The fee does not fall when data or price grow. */
  lemma {:induction false} FeeIsMonotone(
      config: Config, symbol: Bytes, shorter: Bytes, longer: Bytes, lower: nat, higher: nat)
    requires config.gasPriceModifier >= 0.0
    requires |shorter| <= |longer| && lower <= higher
    requires MovementFits(config, longer)
    ensures ComputeFee(MovementGasLimit(config, shorter), ExecutionGasLimit(config, symbol), lower,
                       config.gasPriceModifier)
         <= ComputeFee(MovementGasLimit(config, longer), ExecutionGasLimit(config, symbol), higher,
                       config.gasPriceModifier)
  {
    hide MovementGasLimit, ExecutionGasLimit, ExecutionGasPrice;
    DiscountKeepsOrder(lower, higher, config.gasPriceModifier);
    MoreDataMovesMore(config, shorter, longer);
    FeeGrows(MovementGasLimit(config, shorter), MovementGasLimit(config, longer), ExecutionGasLimit(config, symbol),
             lower, higher, ExecutionGasPrice(lower, config.gasPriceModifier),
             ExecutionGasPrice(higher, config.gasPriceModifier));
  }

  lemma {:induction false} MoreDataMovesMore(config: Config, shorter: Bytes, longer: Bytes)
    requires |shorter| <= |longer|
    requires MovementFits(config, longer)
    ensures MovementGasLimit(config, shorter) <= MovementGasLimit(config, longer)
  {
    MulMonotone(config.net.gasPerDataByte, |shorter|, |longer|);
  }

  lemma {:induction false} FeeGrows(
      little: nat, much: nat, execution: nat, lower: nat, higher: nat, lowerPrice: int, higherPrice: int)
    requires little <= much && lower <= higher && lowerPrice <= higherPrice
    ensures little * lower + execution * lowerPrice <= much * higher + execution * higherPrice
  {
    MulMonotone(lower, little, much);
    MulMonotone(much, lower, higher);
    MulMonotone(execution, lowerPrice, higherPrice);
  }

  lemma {:induction false} DiscountKeepsOrder(lower: nat, higher: nat, modifier: real)
    requires modifier >= 0.0 && lower <= higher
    ensures ExecutionGasPrice(lower, modifier) <= ExecutionGasPrice(higher, modifier)
  {
    assert lower as real * modifier <= higher as real * modifier;
  }

  /** For native transfers the suggested fee is what the network charges for moving the balance in a
      transaction that is neither guarded nor relayed. */
  lemma {:induction false} NativeFeeIsMoveBalanceFee(config: Config, options: Options, data: Bytes, tx: Tx)
    requires config.gasPriceModifier >= 0.0
    requires IsNative(config, options.currencySymbol)
    requires ComputeFeeComponents(config, options, data).Success?
    requires tx.data == data && tx.guardianAddress == "" && !IsRelayedTxV3(tx)
    requires tx.gasPrice == ComputeFeeComponents(config, options, data).value.gasPrice
    ensures ComputeFeeComponents(config, options, data).value.fee == config.net.ComputeTransactionFeeForMoveBalance(tx)
  {
  }

  // ---------------------------------------------------------------- metadata and payloads

  /** Only fungible tokens. */
  function ComputeDataForCustomCurrencyTransfer(tokenIdentifier: Bytes, amount: string): Bytes {
    ESDT_TRANSFER + ['@'] + StringToHex(tokenIdentifier) + ['@'] + AmountToHex(amount)
  }

  datatype MetadataResponse = MetadataResponse(metadata: Metadata, suggestedFee: nat)

  /** "account" is what the network tells about the sender, None if it cannot be had. */
  function ComputeMetadata(config: Config, options: Options, account: Option<nat>): Result<MetadataResponse>
    requires config.gasPriceModifier >= 0.0
  {
    if config.isOffline then Failure(OfflineMode)
    else if account.None? then Failure(UnableToGetAccount)
    else
      var native := IsNative(config, options.currencySymbol);
      var data :=
        if native then options.data
        else ComputeDataForCustomCurrencyTransfer(options.currencySymbol, options.amount);
      var fees :- ComputeFeeComponents(config, options, data);
      Success(MetadataResponse(
        Metadata(
          options.sender, options.receiver, account.value, if native then options.amount else AMOUNT_ZERO,
          options.currencySymbol, fees.gasLimit, fees.gasPrice, data, config.networkID, TRANSACTION_VERSION),
        fees.fee))
  }

  /** Field by field. The gas put into the metadata is enough for its data, and what it says about the transfer is
      the amount itself for the native currency, and data that parses back to token and amount otherwise. */
  method ConstructionMetadata(config: Config, options: Options, account: Option<nat>)
    returns (result: Result<MetadataResponse>)
    requires config.gasPriceModifier >= 0.0
    ensures result == ComputeMetadata(config, options, account)
    ensures result.Success? ==>
              && EstimatedGasLimit(config, options.currencySymbol, result.value.metadata.data)
                 <= result.value.metadata.gasLimit
              && config.minGasPrice <= result.value.metadata.gasPrice
    ensures result.Success? ==> Carries(config, result.value.metadata, options)
  {
    if config.isOffline { return Failure(OfflineMode); }
    if account.None? { return Failure(UnableToGetAccount); }
    var metadata := Metadata(options.sender, options.receiver, account.value, "", options.currencySymbol, 0, 0, [],
                             config.networkID, TRANSACTION_VERSION);
    if IsNative(config, options.currencySymbol) {
      metadata := metadata.(amount := options.amount);
      metadata := metadata.(data := options.data);
    } else {
      metadata := metadata.(amount := AMOUNT_ZERO);
      metadata := metadata.(data := ComputeDataForCustomCurrencyTransfer(options.currencySymbol, options.amount));
    }
    var fees := ComputeFeeComponents(config, options, metadata.data);
    if fees.Failure? { return Failure(fees.error); }
    metadata := metadata.(gasLimit := fees.value.gasLimit);
    metadata := metadata.(gasPrice := fees.value.gasPrice);
    MetadataCarriesIntent(config, options, account);
    return Success(MetadataResponse(metadata, fees.value.fee));
  }

  /** The suggested fee covers moving the data that is put into the transaction, and the gas limit and price put
      into it cover the suggested fee, each as long as nothing wraps around. */
  lemma {:induction false} SuggestedFeeIsCovered(config: Config, options: Options, account: Option<nat>)
    requires 0.0 <= config.gasPriceModifier <= 1.0
    requires ExecutionGasLimit(config, options.currencySymbol) < TWO_TO_THE_64
    ensures var result := ComputeMetadata(config, options, account);
      result.Success? ==>
        var metadata, fee := result.value.metadata, result.value.suggestedFee;
        && (MovementFits(config, metadata.data) ==>
              FullMovementGas(config, metadata.data) * config.minGasPrice <= fee)
        && (EstimateFits(config, options.currencySymbol, metadata.data) ==>
              fee <= metadata.gasLimit * metadata.gasPrice)
  {
    hide ComputeFeeComponents, EstimateFits, MovementFits, ExecutionGasLimit, FullMovementGas,
         ComputeDataForCustomCurrencyTransfer;
    var result := ComputeMetadata(config, options, account);
    if result.Success? {
      FeeBounds(config, options, result.value.metadata.data);
    }
  }

  function ToTransaction(metadata: Metadata): Result<Transaction> {
    if metadata.sender == "" then Failure(MissingSender)
    else if metadata.receiver == "" then Failure(MissingReceiver)
    else if metadata.gasLimit == 0 then Failure(MissingGasLimit)
    else if metadata.gasPrice == 0 then Failure(MissingGasPrice)
    else if metadata.version != 1 then Failure(BadVersion)
    else if metadata.chainID == "" then Failure(MissingChainID)
    else
      Success(Transaction(metadata.sender, metadata.receiver, metadata.nonce, metadata.amount, metadata.gasLimit,
                          metadata.gasPrice, metadata.data, metadata.chainID, metadata.version))
  }

  // ---------------------------------------------------------------- parse

  predicate IsCustomCurrencyTransfer(data: string) {
    ESDT_TRANSFER <= data
  }

  function ParseCustomCurrencyTransfer(data: string): Result<(Bytes, string)> {
    var parts := Split(data, '@');
    if |parts| != 3 then Failure(CannotParseTransfer)
    else
      match HexDecode(parts[1])
      case None => Failure(CannotDecodeIdentifier)
      case Some(identifier) =>
        match HexToAmount(parts[2])
        case None => Failure(CannotDecodeAmount)
        case Some(amount) => Success((identifier, amount))
  }

  function TwoOperations(
      kind: OpType, sender: string, receiver: string, amount: string, currency: Currency): seq<Operation> {
    [Operation(0, kind, sender, "-" + amount, currency), Operation(1, kind, receiver, amount, currency)]
  }

  function CreateOperationsFromPreparedTx(config: Config, tx: Transaction): Result<seq<Operation>> {
    if IsCustomCurrencyTransfer(tx.data) then
      var (identifier, amount) :- ParseCustomCurrencyTransfer(tx.data);
      Success(TwoOperations(CustomTransfer, tx.sender, tx.receiver, amount, config.net.CustomCurrency(identifier)))
    else Success(TwoOperations(Transfer, tx.sender, tx.receiver, tx.value, config.net.nativeCurrency))
  }

  // ---------------------------------------------------------------- round trips

  /** Function, token and amount, in this order. */
  lemma {:induction false} CustomTransferDataLayout(tokenIdentifier: Bytes, amount: string)
    ensures Split(ComputeDataForCustomCurrencyTransfer(tokenIdentifier, amount), '@')
         == ["ESDTTransfer", HexEncode(tokenIdentifier), AmountToHex(amount)]
  {
    hide Split, HexEncode, AmountToHex;
    HexText(tokenIdentifier);
    AmountHexIsHex(amount);
    NoSeparatorInFunction();
    SplitThree(ESDT_TRANSFER, '@', HexEncode(tokenIdentifier), AmountToHex(amount));
  }

  lemma {:induction false} AmountHexIsHex(amount: string)
    ensures '@' !in AmountToHex(amount)
  {
    match ParseDec(amount)
    case None =>
    case Some(v) => HexText(NatToBytes(if v < 0 then -v else v));
  }

  /** For every token identifier and every natural amount, zero included, the data of a custom transfer parses
      back to both. */
  lemma {:induction false} CustomTransferDataRoundTrip(tokenIdentifier: Bytes, n: nat)
    ensures ParseCustomCurrencyTransfer(ComputeDataForCustomCurrencyTransfer(tokenIdentifier, NatToDec(n)))
         == Success((tokenIdentifier, NatToDec(n)))
    ensures IsCustomCurrencyTransfer(ComputeDataForCustomCurrencyTransfer(tokenIdentifier, NatToDec(n)))
  {
    var identifier, amount := StringToHex(tokenIdentifier), AmountToHex(NatToDec(n));
    HexText(tokenIdentifier);
    HexRoundTrip(tokenIdentifier);
    AmountHexRoundTrip(n);
    NoSeparatorInFunction();
    hide Split, HexEncode, NatToDec, HexDecode, HexToAmount, AmountToHex, Count;
    SplitThree(ESDT_TRANSFER, '@', identifier, amount);
    var data := ComputeDataForCustomCurrencyTransfer(tokenIdentifier, NatToDec(n));
    assert Split(data, '@') == [ESDT_TRANSFER, identifier, amount];
  }

  /** The decimal text of a natural number, without sign and leading zeros. */
  ghost predicate IsCanonical(amount: string) {
    exists n: nat :: amount == NatToDec(n)
  }

  /** The data of a token transfer parses back to token and amount exactly for canonical amounts. */
  lemma {:induction false} CustomTransferDataExactly(tokenIdentifier: Bytes, amount: string)
    ensures ParseCustomCurrencyTransfer(ComputeDataForCustomCurrencyTransfer(tokenIdentifier, amount))
              == Success((tokenIdentifier, amount))
            <==> IsCanonical(amount)
  {
    if n: nat :| amount == NatToDec(n) {
      CustomTransferDataRoundTrip(tokenIdentifier, n);
    }
    ParsedAmountIsCanonical(ComputeDataForCustomCurrencyTransfer(tokenIdentifier, amount));
  }

  lemma {:induction false} ParsedAmountIsCanonical(data: string)
    ensures var parsed := ParseCustomCurrencyTransfer(data);
      parsed.Success? ==> IsCanonical(parsed.value.1)
  {
    hide NatToDec, Split, BytesToNat;
    var parts := Split(data, '@');
    if ParseCustomCurrencyTransfer(data).Success? {
      assert ParseCustomCurrencyTransfer(data).value.1 == NatToDec(BytesToNat(HexDecode(parts[2]).value));
    }
  }

  lemma {:induction false} NoSeparatorInFunction()
    ensures '@' !in ESDT_TRANSFER
  {
  }

  /** The metadata says what the options say: from whom to whom, and how much of which currency. */
  ghost predicate Carries(config: Config, metadata: Metadata, options: Options) {
    && metadata.sender == options.sender && metadata.receiver == options.receiver
    && metadata.currencySymbol == options.currencySymbol
    && if IsNative(config, options.currencySymbol) then
         metadata.amount == options.amount && metadata.data == options.data
       else
         && metadata.amount == AMOUNT_ZERO
         && (ParseCustomCurrencyTransfer(metadata.data) == Success((options.currencySymbol, options.amount))
             <==> IsCanonical(options.amount))
  }

  lemma {:induction false} MetadataCarriesIntent(config: Config, options: Options, account: Option<nat>)
    requires config.gasPriceModifier >= 0.0
    ensures ComputeMetadata(config, options, account).Success? ==>
              Carries(config, ComputeMetadata(config, options, account).value.metadata, options)
  {
    hide ComputeFeeComponents, ComputeDataForCustomCurrencyTransfer, ParseCustomCurrencyTransfer, IsCanonical;
    CustomTransferDataExactly(options.currencySymbol, options.amount);
  }

  /** "debit" takes "n" units from its account, and "credit" brings them to its own. */
  ghost predicate IsMovement(debit: Operation, credit: Operation, n: nat) {
    debit.value == "-" + NatToDec(n) && credit.value == NatToDec(n)
  }

  /** "n" units of a native or configured currency move between two accounts, listed in either order. */
  ghost predicate IsTransferIntent(config: Config, operations: seq<Operation>, n: nat) {
    && n > 0
    && |operations| == 2
    && operations[0].account != "" && operations[1].account != ""
    && (IsMovement(operations[0], operations[1], n) || IsMovement(operations[1], operations[0], n))
    && operations[0].currency == operations[1].currency
    && operations[0].currency.symbol != []
    && operations[0].currency == (if IsNative(config, operations[0].currency.symbol) then config.net.nativeCurrency
                                  else config.net.CustomCurrency(operations[0].currency.symbol))
  }

  /** The debit is listed first. */
  ghost predicate DebitFirst(operations: seq<Operation>, n: nat)
    requires |operations| == 2
  {
    IsMovement(operations[0], operations[1], n)
  }

  /** The same operations with the debit first. */
  ghost function InOrder(operations: seq<Operation>, n: nat): (ordered: seq<Operation>)
    requires |operations| == 2
    ensures |ordered| == 2
  {
    if DebitFirst(operations, n) then operations else [operations[1], operations[0]]
  }

  function SenderOf(operations: seq<Operation>, metadata: PreprocessMetadata): string
    requires |operations| == 2
  {
    if metadata.sender != "" then metadata.sender else operations[0].account
  }

  function ReceiverOf(operations: seq<Operation>, metadata: PreprocessMetadata): string
    requires |operations| == 2
  {
    if metadata.receiver != "" then metadata.receiver else operations[1].account
  }

  /** Amount and currency are not overridden by others than the operations'; the accounts may be. */
  ghost predicate Agrees(metadata: PreprocessMetadata, operations: seq<Operation>, n: nat)
    requires |operations| == 2
  {
    && (metadata.amount == "" || metadata.amount == NatToDec(n))
    && (metadata.currencySymbol == [] || metadata.currencySymbol == operations[0].currency.symbol)
  }

  /** Preprocess, Metadata and Payloads, one after the other. */
  function Build(config: Config, operations: seq<Operation>, metadata: PreprocessMetadata, account: Option<nat>):
    Result<Transaction>
    requires config.gasPriceModifier >= 0.0
  {
    var options :- Preprocess(config, operations, metadata);
    var constructed :- ComputeMetadata(config, options, account);
    ToTransaction(constructed.metadata)
  }

  /** The fee suggested along with the metadata that a transaction is built from. */
  function SuggestedFee(
      config: Config, operations: seq<Operation>, metadata: PreprocessMetadata, account: Option<nat>): Result<nat>
    requires config.gasPriceModifier >= 0.0
  {
    var options :- Preprocess(config, operations, metadata);
    var constructed :- ComputeMetadata(config, options, account);
    Success(constructed.suggestedFee)
  }

  /** The gas of a built transaction covers the fee that was suggested for it, as long as the estimate for its data
      does not wrap around. */
  lemma {:induction false} BuiltTransactionIsCovered(
      config: Config, operations: seq<Operation>, metadata: PreprocessMetadata, account: Option<nat>)
    requires 0.0 <= config.gasPriceModifier <= 1.0 && config.gasLimitCustomTransfer < TWO_TO_THE_64
    ensures var built, fee := Build(config, operations, metadata, account),
                              SuggestedFee(config, operations, metadata, account);
      built.Success? ==>
        && fee.Success? && Preprocess(config, operations, metadata).Success?
        && (EstimateFits(config, Preprocess(config, operations, metadata).value.currencySymbol, built.value.data) ==>
              fee.value <= built.value.gasLimit * built.value.gasPrice)
  {
    hide ComputeMetadata, Preprocess, EstimateFits;
    if Build(config, operations, metadata, account).Success? {
      SuggestedFeeIsCovered(config, Preprocess(config, operations, metadata).value, account);
    }
  }

  /** The same accounts, signed amounts, currencies and order, with indices set. */
  ghost predicate SameIntent(parsed: seq<Operation>, operations: seq<Operation>) {
    && |parsed| == |operations|
    && forall i :: 0 <= i < |parsed| ==>
         && parsed[i].index == i
         && parsed[i].account == operations[i].account
         && parsed[i].value == operations[i].value
         && parsed[i].currency == operations[i].currency
  }

  /** A native transfer with free data that starts like a token transfer. */
  predicate ReadAsToken(config: Config, operations: seq<Operation>, metadata: PreprocessMetadata)
    requires operations != []
  {
    IsNative(config, operations[0].currency.symbol) && IsCustomCurrencyTransfer(metadata.data)
  }

  /** The same intent, as transfers of the kind that the currency calls for. */
  ghost predicate IsUnderstoodAs(config: Config, parsed: Result<seq<Operation>>, operations: seq<Operation>)
    requires operations != []
  {
    && parsed.Success? && SameIntent(parsed.value, operations)
    && forall i :: 0 <= i < |parsed.value| ==> parsed.value[i].kind == ExpectedKind(config, operations)
  }

  lemma {:induction false} PreprocessedIntent(
      config: Config, operations: seq<Operation>, metadata: PreprocessMetadata, n: nat)
    requires IsTransferIntent(config, operations, n) && Agrees(metadata, operations, n)
    ensures var symbol := operations[0].currency.symbol;
      Preprocess(config, operations, metadata)
      == if metadata.data != [] && !IsNative(config, symbol) then Failure(DataWithCustomCurrency)
         else Success(Options(SenderOf(operations, metadata), ReceiverOf(operations, metadata), NatToDec(n), symbol,
                              metadata.gasLimit, metadata.gasPrice, metadata.data))
  {
    MagnitudeOfCanonical(n);
    DecRoundTrip(n);
    DecDigitsRoundTrip(n);
  }

  /** What a transaction built for a transfer must hold: the accounts, the nonce of the sender, "n" units either as
      value or in the data, gas limit and price as given or else as estimated and as the network demands, the network
      and the version. */
  ghost predicate IsBuiltFor(
      config: Config, operations: seq<Operation>, metadata: PreprocessMetadata, nonce: nat, n: nat, tx: Transaction)
    requires |operations| == 2
  {
    var symbol := operations[0].currency.symbol;
    && tx.sender == SenderOf(operations, metadata) && tx.receiver == ReceiverOf(operations, metadata)
    && tx.nonce == nonce
    && tx.value == (if IsNative(config, symbol) then NatToDec(n) else "0")
    && tx.data == (if IsNative(config, symbol) then metadata.data
                   else ComputeDataForCustomCurrencyTransfer(symbol, NatToDec(n)))
    && tx.gasLimit == (if metadata.gasLimit > 0 then metadata.gasLimit
                       else EstimatedGasLimit(config, symbol, tx.data))
    && tx.gasPrice == (if metadata.gasPrice > 0 then metadata.gasPrice else config.minGasPrice)
    && tx.chainID == config.networkID
    && tx.version == 1
  }

  /** What is built from an intent. */
  lemma {:induction false} BuiltFromIntent(
      config: Config, operations: seq<Operation>, metadata: PreprocessMetadata, account: Option<nat>, n: nat)
    requires config.gasPriceModifier >= 0.0
    requires IsTransferIntent(config, operations, n) && Agrees(metadata, operations, n)
    ensures var built := Build(config, operations, metadata, account);
      built.Success? ==> account.Some? && IsBuiltFor(config, operations, metadata, account.value, n, built.value)
  {
    hide NatToDec, ComputeDataForCustomCurrencyTransfer, EstimatedGasLimit, ComputeFee, Preprocess, IsTransferIntent,
         Agrees, SenderOf, ReceiverOf;
    PreprocessedIntent(config, operations, metadata, n);
  }

  /** What Parse makes of a built transaction: the debit of the sender, then the credit of the receiver; where a
      native transfer is read as a token transfer, either nothing or operations of the wrong kind. */
  lemma {:induction false} ParsedFromIntent(
      config: Config, operations: seq<Operation>, metadata: PreprocessMetadata, account: Option<nat>, n: nat)
    requires config.gasPriceModifier >= 0.0
    requires IsTransferIntent(config, operations, n) && Agrees(metadata, operations, n)
    ensures var built := Build(config, operations, metadata, account);
      built.Success? ==>
        var parsed := CreateOperationsFromPreparedTx(config, built.value);
        if ReadAsToken(config, operations, metadata) then
          parsed.Success? ==> |parsed.value| == 2 && parsed.value[0].kind != ExpectedKind(config, operations)
        else
          parsed == Success(TwoOperations(ExpectedKind(config, operations), SenderOf(operations, metadata),
                                          ReceiverOf(operations, metadata), NatToDec(n), operations[0].currency))
  {
    hide Build, NatToDec, ComputeDataForCustomCurrencyTransfer, ParseCustomCurrencyTransfer, IsMovement, Agrees,
         IsCustomCurrencyTransfer;
    BuiltFromIntent(config, operations, metadata, account, n);
    CustomTransferDataRoundTrip(operations[0].currency.symbol, n);
  }

  lemma {:induction false} SignsDiffer(n: nat)
    ensures NatToDec(n) != "-" + NatToDec(n)
  {
    assert |"-" + NatToDec(n)| == |NatToDec(n)| + 1;
  }

  /** What is parsed from a built transaction is the intent, position by position, if and only if the debit is listed
      first, the overrides name no other accounts than the operations do, and it is not a native transfer whose free
      data starts like a token transfer. */
  lemma {:induction false} IntentRoundTrip(
      config: Config, operations: seq<Operation>, metadata: PreprocessMetadata, account: Option<nat>, n: nat)
    requires config.gasPriceModifier >= 0.0
    requires IsTransferIntent(config, operations, n) && Agrees(metadata, operations, n)
    ensures var built := Build(config, operations, metadata, account);
      built.Success? ==>
        (IsUnderstoodAs(config, CreateOperationsFromPreparedTx(config, built.value), operations)
         <==> && DebitFirst(operations, n)
              && SenderOf(operations, metadata) == operations[0].account
              && ReceiverOf(operations, metadata) == operations[1].account
              && !ReadAsToken(config, operations, metadata))
  {
    hide Build, NatToDec, CreateOperationsFromPreparedTx, Agrees, ReadAsToken;
    if Build(config, operations, metadata, account).Success? {
      ParsedFromIntent(config, operations, metadata, account, n);
      SignsDiffer(n);
    }
  }

  /** Taken in either order, it is the intent if and only if the sender is the account debited, the receiver the one
      credited, and it is not read as a token transfer: with the credit listed first, only where overrides say so. */
  lemma {:induction false} IntentRoundTripUpToOrder(
      config: Config, operations: seq<Operation>, metadata: PreprocessMetadata, account: Option<nat>, n: nat)
    requires config.gasPriceModifier >= 0.0
    requires IsTransferIntent(config, operations, n) && Agrees(metadata, operations, n)
    ensures var built := Build(config, operations, metadata, account);
      built.Success? ==>
        (IsUnderstoodAs(config, CreateOperationsFromPreparedTx(config, built.value), InOrder(operations, n))
         <==> && SenderOf(operations, metadata) == InOrder(operations, n)[0].account
              && ReceiverOf(operations, metadata) == InOrder(operations, n)[1].account
              && !ReadAsToken(config, operations, metadata))
  {
    hide Build, NatToDec, CreateOperationsFromPreparedTx, Agrees, ReadAsToken;
    if Build(config, operations, metadata, account).Success? {
      ParsedFromIntent(config, operations, metadata, account, n);
      SignsDiffer(n);
    }
  }

  function ExpectedKind(config: Config, operations: seq<Operation>): OpType
    requires operations != []
  {
    if IsNative(config, operations[0].currency.symbol) then Transfer else CustomTransfer
  }

  /** The intent can be built if and only if the service is online and knows the account, free data is only given
      for the native currency, gas limit and price are high enough and positive, and the network has an identifier. */
  lemma {:induction false} IntentIsBuiltExactly(
      config: Config, operations: seq<Operation>, metadata: PreprocessMetadata, account: Option<nat>, n: nat)
    requires config.gasPriceModifier >= 0.0
    requires IsTransferIntent(config, operations, n) && Agrees(metadata, operations, n)
    ensures var symbol := operations[0].currency.symbol;
      var data := if IsNative(config, symbol) then metadata.data
                  else ComputeDataForCustomCurrencyTransfer(symbol, NatToDec(n));
      Build(config, operations, metadata, account).Success? <==>
        && !config.isOffline && account.Some?
        && (metadata.data == [] || IsNative(config, symbol))
        && (metadata.gasLimit == 0 || metadata.gasLimit >= EstimatedGasLimit(config, symbol, data))
        && (metadata.gasPrice == 0 || metadata.gasPrice >= config.minGasPrice)
        && (metadata.gasLimit > 0 || EstimatedGasLimit(config, symbol, data) > 0)
        && (metadata.gasPrice > 0 || config.minGasPrice > 0)
        && config.networkID != ""
  {
    PreprocessedIntent(config, operations, metadata, n);
  }

  /** The whole flow: what a client gets that prepares a transfer and has the built transaction parsed. */
  method ConstructAndParse(
      config: Config, operations: seq<Operation>, metadata: PreprocessMetadata, account: Option<nat>)
    returns (built: Result<Transaction>, suggestedFee: nat, parsed: Result<seq<Operation>>)
    requires config.gasPriceModifier >= 0.0
    ensures built == Build(config, operations, metadata, account)
    ensures built.Failure? ==> parsed.Failure?
    ensures built.Success? ==> SuggestedFee(config, operations, metadata, account) == Success(suggestedFee)
    ensures config.gasPriceModifier <= 1.0 && config.gasLimitCustomTransfer < TWO_TO_THE_64 && built.Success? ==>
              Preprocess(config, operations, metadata).Success?
              && (EstimateFits(config, Preprocess(config, operations, metadata).value.currencySymbol,
                               built.value.data) ==>
                    suggestedFee <= built.value.gasLimit * built.value.gasPrice)
    ensures forall n: nat :: IsTransferIntent(config, operations, n) && Agrees(metadata, operations, n) ==>
              (built.Success? ==>
                 account.Some? && IsBuiltFor(config, operations, metadata, account.value, n, built.value))
    ensures forall n: nat :: IsTransferIntent(config, operations, n) && Agrees(metadata, operations, n) ==>
              (IsUnderstoodAs(config, parsed, operations)
               <==> && built.Success? && DebitFirst(operations, n)
                    && SenderOf(operations, metadata) == operations[0].account
                    && ReceiverOf(operations, metadata) == operations[1].account
                    && !ReadAsToken(config, operations, metadata))
    ensures forall n: nat :: IsTransferIntent(config, operations, n) && Agrees(metadata, operations, n) ==>
              (IsUnderstoodAs(config, parsed, InOrder(operations, n))
               <==> && built.Success?
                    && SenderOf(operations, metadata) == InOrder(operations, n)[0].account
                    && ReceiverOf(operations, metadata) == InOrder(operations, n)[1].account
                    && !ReadAsToken(config, operations, metadata))
  {
    hide Preprocess, ComputeMetadata, ToTransaction, Agrees, ReadAsToken, CreateOperationsFromPreparedTx, SameIntent,
         NatToDec, IsMovement, DebitFirst, InOrder, SenderOf, ReceiverOf, IsBuiltFor, EstimateFits, ExecutionGasLimit,
         EstimatedGasLimit, Carries, IsComplete, Respects, FillsFrom;
    var options := ConstructionPreprocess(config, operations, metadata);
    if options.Failure? { return Failure(options.error), 0, Failure(options.error); }
    var constructed := ConstructionMetadata(config, options.value, account);
    if constructed.Failure? { return Failure(constructed.error), 0, Failure(constructed.error); }
    suggestedFee := constructed.value.suggestedFee;
    built := ToTransaction(constructed.value.metadata);
    if built.Failure? { return built, suggestedFee, Failure(built.error); }
    if config.gasPriceModifier <= 1.0 && config.gasLimitCustomTransfer < TWO_TO_THE_64 {
      BuiltTransactionIsCovered(config, operations, metadata, account);
    }
    parsed := CreateOperationsFromPreparedTx(config, built.value);
    forall n: nat | IsTransferIntent(config, operations, n) && Agrees(metadata, operations, n)
      ensures IsUnderstoodAs(config, parsed, operations)
              <==> && DebitFirst(operations, n)
                   && SenderOf(operations, metadata) == operations[0].account
                   && ReceiverOf(operations, metadata) == operations[1].account
                   && !ReadAsToken(config, operations, metadata)
      ensures IsUnderstoodAs(config, parsed, InOrder(operations, n))
              <==> && SenderOf(operations, metadata) == InOrder(operations, n)[0].account
                   && ReceiverOf(operations, metadata) == InOrder(operations, n)[1].account
                   && !ReadAsToken(config, operations, metadata)
      ensures account.Some? && IsBuiltFor(config, operations, metadata, account.value, n, built.value)
    {
      BuiltFromIntent(config, operations, metadata, account, n);
      IntentRoundTrip(config, operations, metadata, account, n);
      IntentRoundTripUpToOrder(config, operations, metadata, account, n);
    }
  }

  lemma {:induction false} FunctionNameAlone()
    ensures ParseCustomCurrencyTransfer(ESDT_TRANSFER) == Failure(CannotParseTransfer)
    ensures IsCustomCurrencyTransfer(ESDT_TRANSFER)
  {
    NoSeparatorInFunction();
    SplitWithout(ESDT_TRANSFER, '@');
  }

  lemma {:induction false} EstimateIsBelow(config: Config, symbol: Bytes, data: Bytes)
    ensures EstimatedGasLimit(config, symbol, data) < TWO_TO_THE_64
  {
  }

  /** A native transfer whose data is just the name of the token function is built, but cannot be parsed at all. */
  lemma {:induction false} NativeTransferIsMisread(config: Config, sender: string, receiver: string, n: nat, nonce: nat)
    returns (operations: seq<Operation>, metadata: PreprocessMetadata)
    requires config.gasPriceModifier >= 0.0 && !config.isOffline && config.networkID != ""
    requires config.net.nativeCurrency.symbol != [] && sender != "" && receiver != "" && n > 0
    ensures IsTransferIntent(config, operations, n) && Agrees(metadata, operations, n)
    ensures Build(config, operations, metadata, Some(nonce)).Success?
    ensures CreateOperationsFromPreparedTx(config, Build(config, operations, metadata, Some(nonce)).value)
         == Failure(CannotParseTransfer)
  {
    hide Build, NatToDec, ParseCustomCurrencyTransfer, IsCustomCurrencyTransfer, EstimatedGasLimit,
         ComputeDataForCustomCurrencyTransfer;
    var currency := config.net.nativeCurrency;
    operations := TwoOperations(Transfer, sender, receiver, NatToDec(n), currency);
    metadata := PreprocessMetadata("", "", "", [], TWO_TO_THE_64 - 1, config.minGasPrice + 1, ESDT_TRANSFER);
    EstimateIsBelow(config, currency.symbol, ESDT_TRANSFER);
    IntentIsBuiltExactly(config, operations, metadata, Some(nonce), n);
    BuiltFromIntent(config, operations, metadata, Some(nonce), n);
    FunctionNameAlone();
  }

  /** A native transfer listed with the credit first is built without complaint, and pays the other way round. */
  lemma {:induction false} CreditFirstIsReversed(
      config: Config, credited: string, debited: string, n: nat, nonce: nat) returns (operations: seq<Operation>)
    requires config.gasPriceModifier >= 0.0 && !config.isOffline && config.networkID != ""
    requires config.net.nativeCurrency.symbol != [] && credited != "" && debited != "" && n > 0
    requires config.minGasPrice > 0 && EstimatedGasLimit(config, config.net.nativeCurrency.symbol, []) > 0
    ensures var currency, nothing := config.net.nativeCurrency, PreprocessMetadata("", "", "", [], 0, 0, []);
      && operations == [Operation(0, Transfer, credited, NatToDec(n), currency),
                        Operation(1, Transfer, debited, "-" + NatToDec(n), currency)]
      && IsTransferIntent(config, operations, n) && Agrees(nothing, operations, n)
      && Build(config, operations, nothing, Some(nonce)).Success?
      && CreateOperationsFromPreparedTx(config, Build(config, operations, nothing, Some(nonce)).value)
         == Success([Operation(0, Transfer, credited, "-" + NatToDec(n), currency),
                     Operation(1, Transfer, debited, NatToDec(n), currency)])
  {
    hide Build, NatToDec, EstimatedGasLimit, ComputeDataForCustomCurrencyTransfer, CreateOperationsFromPreparedTx;
    var currency, nothing := config.net.nativeCurrency, PreprocessMetadata("", "", "", [], 0, 0, []);
    operations := [Operation(0, Transfer, credited, NatToDec(n), currency),
                   Operation(1, Transfer, debited, "-" + NatToDec(n), currency)];
    IntentIsBuiltExactly(config, operations, nothing, Some(nonce), n);
    ParsedFromIntent(config, operations, nothing, Some(nonce), n);
  }

  // ---------------------------------------------------------------- which error is reported

  /** Sender, receiver, amount and currency are looked for in this order. */
  lemma {:induction false} PreprocessErrors(config: Config, operations: seq<Operation>, metadata: PreprocessMetadata)
    ensures var result, none := Preprocess(config, operations, metadata), operations == [];
      && (result == Failure(CannotPrepareSender) <==> metadata.sender == "" && none)
      && (result == Failure(CannotPrepareReceiver) <==>
            (metadata.sender != "" || !none) && metadata.receiver == "" && |operations| < 2)
      && (result == Failure(CannotPrepareAmount) <==>
            none && metadata.sender != "" && metadata.receiver != "" && metadata.amount == "")
      && (result == Failure(CannotPrepareCurrency) <==>
            none && metadata.sender != "" && metadata.receiver != "" && metadata.amount != ""
            && metadata.currencySymbol == [])
  {
  }

  /** What has been found is then checked in the same order. */
  lemma {:induction false} ValidateErrors(options: Options, nativeSymbol: Bytes)
    ensures var result := Validate(options, nativeSymbol);
      && (result == Failure(MissingSender) <==> options.sender == "")
      && (result == Failure(MissingReceiver) <==> options.sender != "" && options.receiver == "")
      && (result == Failure(MissingAmount) <==>
            options.sender != "" && options.receiver != "" && IsZeroAmount(options.amount))
      && (result == Failure(MissingCurrencySymbol) <==>
            options.sender != "" && options.receiver != "" && !IsZeroAmount(options.amount)
            && options.currencySymbol == [])
      && (result == Failure(DataWithCustomCurrency) <==>
            options.sender != "" && options.receiver != "" && !IsZeroAmount(options.amount)
            && options.currencySymbol != [] && options.currencySymbol != nativeSymbol && options.data != [])
  {
  }

  lemma {:induction false} MetadataErrors(config: Config, options: Options, account: Option<nat>)
    requires config.gasPriceModifier >= 0.0
    ensures var result := ComputeMetadata(config, options, account);
      var data := if IsNative(config, options.currencySymbol) then options.data
                  else ComputeDataForCustomCurrencyTransfer(options.currencySymbol, options.amount);
      var tooLittleGas := 0 < options.gasLimit < EstimatedGasLimit(config, options.currencySymbol, data);
      var tooLowPrice := 0 < options.gasPrice < config.minGasPrice;
      && (result == Failure(OfflineMode) <==> config.isOffline)
      && (result == Failure(UnableToGetAccount) <==> !config.isOffline && account.None?)
      && (result == Failure(InsufficientGasLimit) <==> !config.isOffline && account.Some? && tooLittleGas)
      && (result == Failure(GasPriceTooLow) <==> !config.isOffline && account.Some? && !tooLittleGas && tooLowPrice)
      && (result.Success? <==> !config.isOffline && account.Some? && !tooLittleGas && !tooLowPrice)
  {
    hide EstimatedGasLimit, ComputeFee, ComputeDataForCustomCurrencyTransfer;
  }

  lemma {:induction false} TransactionErrors(metadata: Metadata)
    ensures var result := ToTransaction(metadata);
      var accounts := metadata.sender != "" && metadata.receiver != "";
      && (result == Failure(MissingSender) <==> metadata.sender == "")
      && (result == Failure(MissingReceiver) <==> metadata.sender != "" && metadata.receiver == "")
      && (result == Failure(MissingGasLimit) <==> accounts && metadata.gasLimit == 0)
      && (result == Failure(MissingGasPrice) <==> accounts && metadata.gasLimit > 0 && metadata.gasPrice == 0)
      && (result == Failure(BadVersion) <==>
            accounts && metadata.gasLimit > 0 && metadata.gasPrice > 0 && metadata.version != 1)
      && (result == Failure(MissingChainID) <==>
            && accounts && metadata.gasLimit > 0 && metadata.gasPrice > 0
            && metadata.version == 1 && metadata.chainID == "")
      && (result.Success? <==>
            && accounts && metadata.gasLimit > 0 && metadata.gasPrice > 0
            && metadata.version == 1 && metadata.chainID != "")
  {
  }

  lemma {:induction false} ParseErrors(data: string)
    ensures var result, parts := ParseCustomCurrencyTransfer(data), Split(data, '@');
      && (result == Failure(CannotParseTransfer) <==> Count(data, '@') != 2)
      && (result == Failure(CannotDecodeIdentifier) <==> |parts| == 3 && HexDecode(parts[1]).None?)
      && (result == Failure(CannotDecodeAmount) <==>
            |parts| == 3 && HexDecode(parts[1]).Some? && HexDecode(parts[2]).None?)
  {
    hide Split, Count, HexDecode, NatToDec, BytesToNat;
    SplitJoin(data, '@');
  }
}
