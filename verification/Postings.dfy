/** Who pays and who receives: what the operations of transactions, log events and receipts do to each account, told
    from the fields of the protocol's data alone (server/services/transactionsTransformer.go,
    server/services/transactionEventsController.go). */
module Postings {
  import opened Encoding
  import opened Chain
  import opened Network
  import opened Sequences
  import opened Events
  import opened Operations
  import opened Transformer

  /** One account in one currency, for one kind of operation or for all, and for failed operations or for the others. */
  datatype Book = Book(account: string, currency: Currency, kind: Option<OpKind>, failed: bool)

  function PostedTo(book: Book): Op -> int {
    (op: Op) =>
      if && op.account == book.account && op.amount.currency == book.currency
         && (book.kind.None? || book.kind.value == op.kind)
         && (op.status == Some(Failure) <==> book.failed)
      then op.amount.value else 0
  }

  function Posted(operations: seq<Op>, book: Book): int {
    SumOf(PostedTo(book), operations)
  }

  /** What an operation adds to a book. */
  function Entry(book: Book, kind: OpKind, account: string, value: int, currency: Currency, failed: bool): int {
    if && account == book.account && currency == book.currency
       && (book.kind.None? || book.kind.value == kind)
       && failed == book.failed
    then value else 0
  }

  /** "value" is taken from one account and given to another. */
  function Payment(book: Book, kind: OpKind, from: string, to: string, value: int, currency: Currency): int {
    Entry(book, kind, to, value, currency, false) - Entry(book, kind, from, value, currency, false)
  }

  /** The effect on an account is what is posted to it, failed operations apart. */
  lemma {:induction false} EffectIsPosted(operations: seq<Op>, account: string, currency: Currency)
    ensures Effect(operations, account, currency) == Posted(operations, Book(account, currency, None, false))
  {
    SumCongruence(EffectOn(account, currency), PostedTo(Book(account, currency, None, false)), operations);
  }

  lemma {:induction false} PostedConcat(a: seq<Op>, b: seq<Op>, book: Book)
    ensures Posted(a + b, book) == Posted(a, book) + Posted(b, book)
  {
    SumConcat(PostedTo(book), a, b);
  }

  lemma {:induction false} PostedNothing(book: Book)
    ensures Posted([], book) == 0
  {
  }

  lemma {:induction false} PostedOne(kind: OpKind, account: string, value: int, currency: Currency, book: Book)
    ensures Posted([NewOp(kind, account, value, currency)], book) == Entry(book, kind, account, value, currency, false)
  {
    SumOfOne(PostedTo(book), NewOp(kind, account, value, currency));
  }

  lemma {:induction false} PostedFailed(kind: OpKind, account: string, value: int, currency: Currency, book: Book)
    ensures Posted([NewOp(kind, account, value, currency).(status := Some(Failure))], book)
         == Entry(book, kind, account, value, currency, true)
  {
    SumOfOne(PostedTo(book), NewOp(kind, account, value, currency).(status := Some(Failure)));
  }

  /** A move takes from the first account and gives to the second. */
  lemma {:induction false} PostedMove(
      kind: OpKind, from: string, to: string, value: nat, currency: Currency, book: Book)
    ensures Posted(Move(kind, from, to, value, currency), book) == Payment(book, kind, from, to, value, currency)
  {
    var ops := Move(kind, from, to, value, currency);
    assert ops == [NewOp(kind, from, 0 - value, currency)] + [NewOp(kind, to, value, currency)];
    PostedConcat([NewOp(kind, from, 0 - value, currency)], [NewOp(kind, to, value, currency)], book);
    PostedOne(kind, from, 0 - value, currency, book);
    PostedOne(kind, to, value, currency, book);
  }

  // ---------------------------------------------------------------- transactions

  predicate SignalsError(tx: Tx) {
    exists e :: e in tx.events && e.kind == SignalError
  }

  /** From Sirius on, the value of a direct deployment, or of a contract call within a shard, that ends in a signal
      error stays with the sender. */
  predicate ValueStays(net: Network, tx: Tx) {
    && tx.epoch >= net.activationEpochSirius && SignalsError(tx)
    && (|| (tx.typeOnSource == ContractDeployment && tx.typeOnDestination == ContractDeployment)
        || (tx.sourceShard == tx.destinationShard
            && tx.typeOnSource == ContractInvoking && tx.typeOnDestination == ContractInvoking))
  }

  /** The relayer pays when address and signature are there, each as long as the sender's. */
  function Payer(tx: Tx): string {
    if && |tx.relayerAddress| > 0 && |tx.relayerAddress| == |tx.sender|
       && |tx.relayerSignature| > 0 && |tx.relayerSignature| == |tx.signature|
    then tx.relayerAddress else tx.sender
  }

  predicate RelaysBeforeSirius(net: Network, tx: Tx) {
    tx.epoch < net.activationEpochSirius && tx.typeOnSource == RelayedV1 && tx.typeOnDestination == RelayedV1
  }

  /** The inner transaction stays within the shard of the relayed one, which ends in a signal error. */
  predicate InnerIsShown(net: Network, tx: Tx, inner: InnerTx) {
    && tx.sourceShard == tx.destinationShard
    && net.shardOf(inner.sender) == tx.sourceShard && net.shardOf(inner.receiver) == tx.sourceShard
    && SignalsError(tx)
  }

  function InnerEntries(net: Network, tx: Tx, book: Book): int {
    if RelaysBeforeSirius(net, tx) && tx.inner.Some? && InnerIsShown(net, tx, tx.inner.value) then
      Payment(book, OpTransfer, net.toAddress(tx.inner.value.sender), net.toAddress(tx.inner.value.receiver),
              tx.inner.value.value, net.nativeCurrency)
    else 0
  }

  /** A contract refunding itself. */
  predicate RefundsItself(net: Network, scr: Tx) {
    scr.sender == scr.receiver && (net.toPubKey(scr.sender).None? || net.isContract(net.toPubKey(scr.sender).value))
  }

  /** Before Spica, a result without data and nonce pays out a claim that is in the block. */
  predicate PaysOutClaim(net: Network, scr: Tx, txsInBlock: seq<Tx>) {
    && scr.epoch < net.activationEpochSpica && scr.data == [] && scr.nonce == 0
    && exists claim :: claim in txsInBlock && claim.hash == scr.originalHash
         && claim.typeOnSource == BuiltInFunctionCall && claim.typeOnDestination == BuiltInFunctionCall
         && claim.operation == "ClaimDeveloperRewards"
  }

  /** An invalid transfer that only pays for moving its data: value sent to a contract that does not take it, or an
      invalid meta transaction. */
  predicate PaysForMovementOnly(tx: Tx) {
    && tx.typeOnSource == MoveBalance && tx.typeOnDestination == MoveBalance
    && exists e :: e in tx.events && e.kind == SignalError
         && (|| "@" + HexEncode("sending value to non payable contract") <= e.data
             || "meta transaction is invalid" in e.topics
             || "meta transaction is invalid" + ": not enough gas" in e.topics)
  }

  /** What a transaction itself, without its events, posts to a book. */
  function OwnEntries(net: Network, tx: Tx, txsInBlock: seq<Tx>, book: Book): int {
    var native := net.nativeCurrency;
    match tx.kind
    case Normal =>
      (if ValueStays(net, tx) then 0 else Payment(book, OpTransfer, tx.sender, tx.receiver, tx.value, native))
      + Entry(book, OpFee, Payer(tx), 0 - tx.initiallyPaidFee, native, false)
      + InnerEntries(net, tx, book)
    case Reward => Entry(book, OpReward, tx.receiver, tx.value, native, false)
    case Unsigned =>
      if tx.isRefund then
        if RefundsItself(net, tx) then 0 else Entry(book, OpFeeRefundAsScResult, tx.receiver, tx.value, native, false)
      else if PaysOutClaim(net, tx, txsInBlock) then
        Entry(book, OpDeveloperRewardsAsScResult, tx.receiver, tx.value, native, false)
      else Payment(book, OpScResult, tx.sender, tx.receiver, tx.value, native)
    case Invalid =>
      Entry(book, OpTransfer, tx.sender, 0 - tx.value, native, true)
      + Entry(book, OpTransfer, tx.receiver, tx.value, native, true)
      + Entry(book, OpFeeOfInvalidTx, Payer(tx),
              0 - (if PaysForMovementOnly(tx) then net.ComputeTransactionFeeForMoveBalance(tx)
                   else tx.initiallyPaidFee),
              native, false)
    case OtherKind(_) => 0
  }

  /** A transaction can be shown if and only if its kind is known, and, where it relays another one before Sirius,
      that one could be parsed. */
  lemma {:induction false} OwnOperationsExactly(net: Network, tx: Tx, txsInBlock: seq<Tx>)
    ensures OwnOperations(net, tx, txsInBlock).Some? <==>
              !tx.kind.OtherKind? && (tx.kind == Normal && RelaysBeforeSirius(net, tx) ==> tx.inner.Some?)
  {
  }

  /** Metadata comes with normal and invalid transactions, and with contract results that are plain transfers. */
  lemma {:induction false} MetadataIsGivenExactly(net: Network, tx: Tx, txsInBlock: seq<Tx>)
    ensures MetadataOf(net, tx, txsInBlock)
         == if || tx.kind == Normal || tx.kind == Invalid
               || (tx.kind == Unsigned && !tx.isRefund && !PaysOutClaim(net, tx, txsInBlock))
            then TransactionMetadata(tx) else map[]
  {
    hide TransactionMetadata;
  }

  /** For every account, currency and kind of operation, and for failed operations as for others. */
  lemma {:induction false} OwnPostings(net: Network, tx: Tx, txsInBlock: seq<Tx>, book: Book)
    ensures var own := OwnOperations(net, tx, txsInBlock);
      own.Some? ==> Posted(own.value, book) == OwnEntries(net, tx, txsInBlock, book)
  {
    hide Posted, Entry, Move;
    if OwnOperations(net, tx, txsInBlock).Some? {
      match tx.kind
      case Normal => NormalPostings(net, tx, book);
      case Reward => PostedOne(OpReward, tx.receiver, tx.value, net.nativeCurrency, book);
      case Unsigned => UnsignedPostings(net, tx, txsInBlock, book);
      case Invalid => InvalidPostings(net, tx, book);
    }
  }

  lemma {:induction false} NormalPostings(net: Network, tx: Tx, book: Book)
    requires tx.kind == Normal && NormalOperations(net, tx).Some?
    ensures Posted(NormalOperations(net, tx).value, book) == OwnEntries(net, tx, [], book)
  {
    hide Posted, Move;
    var native := net.nativeCurrency;
    var inner := InnerOperations(net, tx).value;
    var moved := if TransfersValue(net, tx) then Move(OpTransfer, tx.sender, tx.receiver, tx.value, native) else [];
    var fee := [NewOp(OpFee, FeePayer(tx), 0 - tx.initiallyPaidFee, native)];
    PostedConcat(moved + fee, inner, book);
    PostedConcat(moved, fee, book);
    PostedOne(OpFee, FeePayer(tx), 0 - tx.initiallyPaidFee, native, book);
    PostedMove(OpTransfer, tx.sender, tx.receiver, tx.value, native, book);
    PostedNothing(book);
    InnerPostings(net, tx, book);
    MovesUnlessItStays(net, tx);
  }

  lemma {:induction false} MovesUnlessItStays(net: Network, tx: Tx)
    ensures TransfersValue(net, tx) <==> tx.value != 0 && !ValueStays(net, tx)
    ensures FeePayer(tx) == Payer(tx)
  {
  }

  lemma {:induction false} InnerPostings(net: Network, tx: Tx, book: Book)
    requires tx.kind == Normal && InnerOperations(net, tx).Some?
    ensures Posted(InnerOperations(net, tx).value, book) == InnerEntries(net, tx, book)
  {
    hide Posted, Move;
    PostedNothing(book);
    if tx.inner.Some? {
      var inner := tx.inner.value;
      PostedMove(OpTransfer, net.toAddress(inner.sender), net.toAddress(inner.receiver), inner.value,
                 net.nativeCurrency, book);
    }
  }

  lemma {:induction false} UnsignedPostings(net: Network, tx: Tx, txsInBlock: seq<Tx>, book: Book)
    requires tx.kind == Unsigned
    ensures Posted(UnsignedOperations(net, tx, txsInBlock), book) == OwnEntries(net, tx, txsInBlock, book)
  {
    hide Posted, Move, Entry, Payment;
    var native := net.nativeCurrency;
    PostedNothing(book);
    PostedOne(OpFeeRefundAsScResult, tx.receiver, tx.value, native, book);
    PostedOne(OpDeveloperRewardsAsScResult, tx.receiver, tx.value, native, book);
    PostedMove(OpScResult, tx.sender, tx.receiver, tx.value, native, book);
  }

  lemma {:induction false} InvalidPostings(net: Network, tx: Tx, book: Book)
    requires tx.kind == Invalid
    ensures Posted(InvalidOperations(net, tx), book) == OwnEntries(net, tx, [], book)
  {
    hide Posted, Entry, InvalidOperations, PaysForMovementOnly, FeePayer, Payer, FeeOfInvalid;
    var native := net.nativeCurrency;
    var ops := InvalidOperations(net, tx);
    FeeOfInvalidExactly(net, tx);
    MovesUnlessItStays(net, tx);
    assert ops == [ops[0]] + [ops[1]] + [ops[2]];
    PostedConcat([ops[0]] + [ops[1]], [ops[2]], book);
    PostedConcat([ops[0]], [ops[1]], book);
    PostedFailed(OpTransfer, tx.sender, 0 - tx.value, native, book);
    PostedFailed(OpTransfer, tx.receiver, tx.value, native, book);
    PostedOne(OpFeeOfInvalidTx, FeePayer(tx), 0 - FeeOfInvalid(net, tx), native, book);
  }

  lemma {:induction false} FeeOfInvalidExactly(net: Network, tx: Tx)
    requires tx.kind == Invalid
    ensures FeeOfInvalid(net, tx)
         == if PaysForMovementOnly(tx) then net.ComputeTransactionFeeForMoveBalance(tx) else tx.initiallyPaidFee
    ensures var ops := InvalidOperations(net, tx);
      && |ops| == 3
      && ops[0] == NewOp(OpTransfer, tx.sender, 0 - tx.value, net.nativeCurrency).(status := Some(Failure))
      && ops[1] == NewOp(OpTransfer, tx.receiver, tx.value, net.nativeCurrency).(status := Some(Failure))
      && ops[2] == NewOp(OpFeeOfInvalidTx, FeePayer(tx), 0 - FeeOfInvalid(net, tx), net.nativeCurrency)
  {
    hide HexEncode;
  }

  // ---------------------------------------------------------------- log events

  /** A token and its nonce make a currency, the configured one where there is one. */
  function TokenCurrency(net: Network, identifier: Bytes, nonce: Bytes): Currency {
    var symbol := if nonce == [] then identifier else identifier + "-" + HexEncode(nonce);
    if symbol in net.customCurrencies then net.customCurrencies[symbol] else Currency(symbol, 0)
  }

  /** A transfer of a token, of which only the native currency in disguise and supported tokens are shown. */
  function TokenEntries(
      net: Network, book: Book, identifier: Bytes, nonce: Bytes, value: nat, from: string, to: string): int {
    if identifier == "EGLD-000000" then Payment(book, OpTransfer, from, to, value, net.nativeCurrency)
    else if identifier in net.customCurrencies then
      Payment(book, OpCustomTransfer, from, to, value, TokenCurrency(net, identifier, nonce))
    else 0
  }

  /** Tokens that appear, or disappear where "value" is negative. */
  function SupplyEntries(
      net: Network, book: Book, identifier: Bytes, nonce: Bytes, value: int, account: string): int {
    if identifier in net.customCurrencies then
      Entry(book, OpCustomTransfer, account, value, TokenCurrency(net, identifier, nonce), false)
    else 0
  }

  /** The first "n" transfers of a multi-transfer, three topics each, all to the receiver of the last topic. */
  function MultiEntries(net: Network, book: Book, e: Event, n: nat): int
    requires 3 * n < |e.topics|
  {
    if n == 0 then 0
    else
      MultiEntries(net, book, e, n - 1)
      + TokenEntries(net, book, e.topics[3 * n - 3], e.topics[3 * n - 2], BytesToNat(e.topics[3 * n - 1]),
                     e.address, net.toAddress(e.topics[|e.topics| - 1]))
  }

  /** Value that a contract passes on within its shard. */
  predicate PassesValueOn(e: Event) {
    && |e.topics| == 2 && e.topics[0] != [] && (e.data == "ExecuteOnDestContext" || e.data == "AsyncCall")
  }

  /** The topics that the kinds of events must have. Of value-only transfers, which count from Sirius on, the sender
      must be an address as well. */
  predicate IsWellFormed(net: Network, tx: Tx, e: Event) {
    match e.kind
    case SCDeploy => |e.topics| >= 2
    case TransferValueOnly =>
      tx.epoch >= net.activationEpochSirius ==>
        |e.topics| == 2 && (PassesValueOn(e) ==> net.toPubKey(e.address).Some?)
    case ESDTTransfer => |e.topics| == 4
    case ESDTNFTTransfer => |e.topics| == 4
    case MultiESDTNFTTransfer => |e.topics| % 3 == 1
    case ESDTLocalBurn => |e.topics| == 3
    case ESDTLocalMint => |e.topics| == 3
    case ESDTWipe => |e.topics| == 4
    case ESDTNFTCreate => |e.topics| == 4
    case ESDTNFTBurn => |e.topics| == 3
    case ESDTNFTAddQuantity => |e.topics| == 3
    case ClaimDeveloperRewards => |e.topics| == 2
    case _ => true
  }

  /** A direct deployment passes the value on from the system's account to the contract. */
  function DeployEntries(net: Network, tx: Tx, book: Book, e: Event): int {
    if tx.receiver == "erd1qqqqqqqqqqqqqqqqqqqqqqqqqqqqqqqqqqqqqqqqqqqqqqqqqqqq6gq4hu" then
      Payment(book, OpTransfer, tx.receiver, e.address, tx.value, net.nativeCurrency)
    else 0
  }

  function ValueOnlyEntries(net: Network, tx: Tx, book: Book, e: Event): int {
    if && tx.epoch >= net.activationEpochSirius && PassesValueOn(e) && net.toPubKey(e.address).Some?
       && net.shardOf(net.toPubKey(e.address).value) == net.shardOf(e.topics[1])
    then
      Payment(book, OpTransfer, e.address, net.toAddress(e.topics[1]), BytesToNat(e.topics[0]), net.nativeCurrency)
    else 0
  }

  /** From the account of the event to the one of the fourth topic. */
  function SingleEntries(net: Network, book: Book, e: Event): int
    requires |e.topics| == 4
  {
    TokenEntries(net, book, e.topics[0], e.topics[1], BytesToNat(e.topics[2]), e.address, net.toAddress(e.topics[3]))
  }

  /** "sign" is 1 where tokens appear, and -1 where they disappear. */
  function TokensEntries(net: Network, book: Book, e: Event, sign: int, account: string): int
    requires |e.topics| >= 3
  {
    SupplyEntries(net, book, e.topics[0], e.topics[1], sign * BytesToNat(e.topics[2]), account)
  }

  function ClaimEntries(net: Network, tx: Tx, book: Book, e: Event): int
    requires |e.topics| == 2
  {
    if tx.epoch >= net.activationEpochSpica then
      Entry(book, OpDeveloperRewards, net.toAddress(e.topics[1]), BytesToNat(e.topics[0]), net.nativeCurrency, false)
    else 0
  }

  /** What an event of a transaction posts to a book. */
  function EventEntries(net: Network, tx: Tx, book: Book): Event -> int {
    (e: Event) =>
      if !IsWellFormed(net, tx, e) then 0
      else
        match e.kind
        case SCDeploy => DeployEntries(net, tx, book, e)
        case TransferValueOnly => ValueOnlyEntries(net, tx, book, e)
        case ESDTTransfer => SingleEntries(net, book, e)
        case ESDTNFTTransfer => SingleEntries(net, book, e)
        case MultiESDTNFTTransfer => MultiEntries(net, book, e, |e.topics| / 3)
        case ESDTLocalBurn => TokensEntries(net, book, e, -1, e.address)
        case ESDTLocalMint => TokensEntries(net, book, e, 1, e.address)
        case ESDTWipe => TokensEntries(net, book, e, -1, net.toAddress(e.topics[3]))
        case ESDTNFTCreate => TokensEntries(net, book, e, 1, e.address)
        case ESDTNFTBurn => TokensEntries(net, book, e, -1, e.address)
        case ESDTNFTAddQuantity => TokensEntries(net, book, e, 1, e.address)
        case ClaimDeveloperRewards => ClaimEntries(net, tx, book, e)
        case _ => 0
  }

  // ---------------------------------------------------------------- one kind of events after the other

  /** Operations made of the events of one kind post what these events do. */
  lemma {:induction false} KindPostings<T>(
      tx: Tx, kind: EventKind, read: Event -> Option<T>, operationsOf: T -> seq<Op>, book: Book, g: Event -> int)
    requires MapAll(read, FindMany(tx, kind)).Some?
    requires forall e: Event :: e.kind == kind && read(e).Some? ==> Posted(operationsOf(read(e).value), book) == g(e)
    ensures Posted(FlatMap(operationsOf, MapAll(read, FindMany(tx, kind)).value), book)
         == SumOf(OfKind(kind, g), tx.events)
  {
    var typed := MapAll(read, FindMany(tx, kind)).value;
    var posted := (t: T) => Posted(operationsOf(t), book);
    SumFlatMap(PostedTo(book), operationsOf, posted, typed);
    SumOfRead(read, FindMany(tx, kind), posted, g);
    SumOfFiltered(g, IsKind(kind), OfKind(kind, g), tx.events);
  }

  lemma {:induction false} PostedEach<T>(operationsOf: T -> seq<Op>, posted: T -> int, s: seq<T>, book: Book)
    requires forall t :: posted(t) == Posted(operationsOf(t), book)
    ensures Posted(FlatMap(operationsOf, s), book) == SumOf(posted, s)
  {
    SumFlatMap(PostedTo(book), operationsOf, posted, s);
  }

  lemma {:induction false} SameTokenCurrency(net: Network, e: EventESDT)
    ensures net.CustomCurrency(e.ExtendedIdentifier()) == TokenCurrency(net, e.identifier, e.nonce)
  {
  }

  lemma {:induction false} TransferPosted(net: Network, e: EventESDT, book: Book)
    ensures Posted(TransferOperations(net)(e), book)
         == TokenEntries(net, book, e.identifier, e.nonce, e.value, e.sender, e.receiver)
  {
    hide Posted, Move, TokenCurrency, Payment;
    SameTokenCurrency(net, e);
    PostedNothing(book);
    PostedMove(OpTransfer, e.sender, e.receiver, e.value, net.nativeCurrency, book);
    PostedMove(OpCustomTransfer, e.sender, e.receiver, e.value, net.CustomCurrency(e.ExtendedIdentifier()), book);
  }

  lemma {:induction false} SupplyPosted(net: Network, sign: int, e: EventESDT, book: Book)
    ensures Posted(SupplyOperations(net, sign)(e), book)
         == SupplyEntries(net, book, e.identifier, e.nonce, sign * e.value, e.other)
  {
    hide Posted, TokenCurrency, Entry;
    SameTokenCurrency(net, e);
    PostedNothing(book);
    PostedOne(OpCustomTransfer, e.other, sign * e.value, net.CustomCurrency(e.ExtendedIdentifier()), book);
  }

  /** The table, kind by kind. */
  lemma {:induction false} EntriesByKind(net: Network, tx: Tx, e: Event, book: Book)
    requires IsWellFormed(net, tx, e)
    ensures e.kind == SCDeploy ==> EventEntries(net, tx, book)(e) == DeployEntries(net, tx, book, e)
    ensures e.kind == TransferValueOnly ==> EventEntries(net, tx, book)(e) == ValueOnlyEntries(net, tx, book, e)
    ensures e.kind == ESDTTransfer || e.kind == ESDTNFTTransfer ==>
              |e.topics| == 4 && EventEntries(net, tx, book)(e) == SingleEntries(net, book, e)
    ensures e.kind == MultiESDTNFTTransfer ==>
              |e.topics| % 3 == 1 && EventEntries(net, tx, book)(e) == MultiEntries(net, book, e, |e.topics| / 3)
    ensures e.kind == ESDTLocalBurn || e.kind == ESDTNFTBurn ==>
              |e.topics| == 3 && EventEntries(net, tx, book)(e) == TokensEntries(net, book, e, -1, e.address)
    ensures e.kind == ESDTLocalMint || e.kind == ESDTNFTAddQuantity ==>
              |e.topics| == 3 && EventEntries(net, tx, book)(e) == TokensEntries(net, book, e, 1, e.address)
    ensures e.kind == ESDTNFTCreate ==>
              |e.topics| == 4 && EventEntries(net, tx, book)(e) == TokensEntries(net, book, e, 1, e.address)
    ensures e.kind == ESDTWipe ==>
              |e.topics| == 4
              && EventEntries(net, tx, book)(e) == TokensEntries(net, book, e, -1, net.toAddress(e.topics[3]))
    ensures e.kind == ClaimDeveloperRewards ==>
              |e.topics| == 2 && EventEntries(net, tx, book)(e) == ClaimEntries(net, tx, book, e)
  {
    hide DeployEntries, ValueOnlyEntries, SingleEntries, MultiEntries, TokensEntries, ClaimEntries, PassesValueOn;
  }

  lemma {:induction false} DeployPosted(net: Network, tx: Tx, e: Event, book: Book)
    requires Deploy(net, e).Some?
    ensures Posted(DeployOperations(net, tx)(Deploy(net, e).value), book) == DeployEntries(net, tx, book, e)
  {
    hide Posted, Move, Payment;
    PostedNothing(book);
    PostedMove(OpTransfer, tx.receiver, e.address, tx.value, net.nativeCurrency, book);
  }

  lemma {:induction false} ClaimPosted(net: Network, tx: Tx, e: Event, book: Book)
    requires DeveloperRewards(net, e).Some?
    ensures |e.topics| == 2
    ensures Posted(RewardsOperations(net, tx)(DeveloperRewards(net, e).value), book) == ClaimEntries(net, tx, book, e)
  {
    hide Posted, Entry, BytesToNat;
    PostedNothing(book);
    PostedOne(OpDeveloperRewards, net.toAddress(e.topics[1]), BytesToNat(e.topics[0]), net.nativeCurrency, book);
  }

  lemma {:induction false} SinglePosted(net: Network, e: Event, book: Book)
    requires SingleTransfer(net, e).Some?
    ensures |e.topics| == 4
    ensures Posted(TransferOperations(net)(SingleTransfer(net, e).value), book) == SingleEntries(net, book, e)
  {
    hide Posted, TokenEntries, TransferOperations, BytesToNat;
    TransferPosted(net, SingleTransfer(net, e).value, book);
  }

  lemma {:induction false} OneSidedPosted(net: Network, e: Event, numTopics: nat, sign: int, book: Book)
    requires numTopics >= 3 && OneSided(numTopics)(e).Some?
    ensures |e.topics| == numTopics
    ensures Posted(SupplyOperations(net, sign)(OneSided(numTopics)(e).value), book)
         == TokensEntries(net, book, e, sign, e.address)
  {
    hide Posted, SupplyEntries, SupplyOperations, BytesToNat;
    SupplyPosted(net, sign, OneSided(numTopics)(e).value, book);
  }

  lemma {:induction false} WipePosted(net: Network, e: Event, book: Book)
    requires Wipe(net, e).Some?
    ensures |e.topics| == 4
    ensures Posted(SupplyOperations(net, -1)(Wipe(net, e).value), book)
         == TokensEntries(net, book, e, -1, net.toAddress(e.topics[3]))
  {
    hide Posted, SupplyEntries, SupplyOperations, BytesToNat;
    SupplyPosted(net, -1, Wipe(net, e).value, book);
  }

  // ---------------------------------------------------------------- multi-transfers and value-only transfers

  function PostedByTransfer(net: Network, book: Book): EventESDT -> int {
    (t: EventESDT) => Posted(TransferOperations(net)(t), book)
  }

  /** The transfers read from a multi-transfer, topic by topic. */
  lemma {:induction false} MultiItems(net: Network, e: Event, list: seq<EventESDT>, i: nat)
    requires MultiTransfer(net, e) == Some(list) && i < |list|
    ensures 3 * i + 3 < |e.topics|
    ensures && list[i].identifier == e.topics[3 * i] && list[i].nonce == e.topics[3 * i + 1]
            && list[i].value == BytesToNat(e.topics[3 * i + 2])
            && list[i].sender == e.address && list[i].receiver == net.toAddress(e.topics[|e.topics| - 1])
  {
    hide BytesToNat;
    assert list[i] == MultiTransferItem(net, e, i);
  }

  lemma {:induction false} MultiPosted(net: Network, e: Event, book: Book, list: seq<EventESDT>, n: nat)
    requires MultiTransfer(net, e) == Some(list) && n <= |list|
    ensures 3 * n < |e.topics|
    ensures SumOf(PostedByTransfer(net, book), list[..n]) == MultiEntries(net, book, e, n)
  {
    hide Posted, TransferOperations, TokenEntries, BytesToNat, MultiTransfer, SumOf;
    ThirdOf(net, e);
    if n == 0 {
      NothingPostedByTransfers(net, book, list);
    } else {
      MultiPosted(net, e, book, list, n - 1);
      assert list[..n] == list[..n - 1] + [list[n - 1]];
      SumConcat(PostedByTransfer(net, book), list[..n - 1], [list[n - 1]]);
      SumOfOne(PostedByTransfer(net, book), list[n - 1]);
      MultiItems(net, e, list, n - 1);
      TransferPosted(net, list[n - 1], book);
    }
  }

  lemma {:induction false} NothingPostedByTransfers(net: Network, book: Book, list: seq<EventESDT>)
    ensures SumOf(PostedByTransfer(net, book), list[..0]) == 0
  {
  }

  lemma {:induction false} MultiEventPosted(net: Network, e: Event, book: Book)
    requires MultiTransfer(net, e).Some?
    ensures |e.topics| % 3 == 1
    ensures SumOf(PostedByTransfer(net, book), MultiTransfer(net, e).value)
         == MultiEntries(net, book, e, |e.topics| / 3)
  {
    hide MultiEntries, SumOf, PostedByTransfer;
    var list := MultiTransfer(net, e).value;
    ThirdOf(net, e);
    MultiPosted(net, e, book, list, |list|);
    assert list[..|list|] == list;
  }

  lemma {:induction false} ThirdOf(net: Network, e: Event)
    requires MultiTransfer(net, e).Some?
    ensures |MultiTransfer(net, e).value| == |e.topics| / 3 && |e.topics| % 3 == 1
  {
  }

  lemma {:induction false} MultisPosted(net: Network, tx: Tx, book: Book)
    requires MapAll((e: Event) => MultiTransfer(net, e), FindMany(tx, MultiESDTNFTTransfer)).Some?
    ensures var lists := MapAll((e: Event) => MultiTransfer(net, e), FindMany(tx, MultiESDTNFTTransfer)).value;
      Posted(FlatMap(TransferOperations(net), Flatten(lists)), book)
      == SumOf(OfKind(MultiESDTNFTTransfer, EventEntries(net, tx, book)), tx.events)
  {
    hide EventEntries, MultiTransfer, Posted, TransferOperations;
    var read := (e: Event) => MultiTransfer(net, e);
    var raw := FindMany(tx, MultiESDTNFTTransfer);
    var lists := MapAll(read, raw).value;
    var posted := PostedByTransfer(net, book);
    var g := EventEntries(net, tx, book);
    var ofList := (l: seq<EventESDT>) => SumOf(posted, l);
    PostedEach(TransferOperations(net), posted, Flatten(lists), book);
    SumFlatMap(posted, (l: seq<EventESDT>) => l, ofList, lists);
    forall e | e in raw && read(e).Some? ensures ofList(read(e).value) == g(e) {
      MultiEventPosted(net, e, book);
      EntriesByKind(net, tx, e, book);
    }
    SumOfRead(read, raw, ofList, g);
    SumOfFiltered(g, IsKind(MultiESDTNFTTransfer), OfKind(MultiESDTNFTTransfer, g), tx.events);
  }

  lemma {:induction false} SinglesPosted(net: Network, tx: Tx, book: Book)
    requires MapAll((e: Event) => SingleTransfer(net, e),
                    FindMany(tx, ESDTTransfer) + FindMany(tx, ESDTNFTTransfer)).Some?
    ensures var singles :=
        MapAll((e: Event) => SingleTransfer(net, e), FindMany(tx, ESDTTransfer) + FindMany(tx, ESDTNFTTransfer)).value;
      Posted(FlatMap(TransferOperations(net), singles), book)
      == SumOf(OfKind(ESDTTransfer, EventEntries(net, tx, book)), tx.events)
         + SumOf(OfKind(ESDTNFTTransfer, EventEntries(net, tx, book)), tx.events)
  {
    var read := (e: Event) => SingleTransfer(net, e);
    var a, b := FindMany(tx, ESDTTransfer), FindMany(tx, ESDTNFTTransfer);
    var g := EventEntries(net, tx, book);
    var posted := PostedByTransfer(net, book);
    SumFlatMap(PostedTo(book), TransferOperations(net), posted, MapAll(read, a + b).value);
    forall e | e in a + b && read(e).Some? ensures posted(read(e).value) == g(e) {
      SinglePosted(net, e, book);
      EntriesByKind(net, tx, e, book);
    }
    SumOfRead(read, a + b, posted, g);
    SumConcat(g, a, b);
    SumOfFiltered(g, IsKind(ESDTTransfer), OfKind(ESDTTransfer, g), tx.events);
    SumOfFiltered(g, IsKind(ESDTNFTTransfer), OfKind(ESDTNFTTransfer, g), tx.events);
  }

  lemma {:induction false} TransfersPosted(net: Network, tx: Tx, book: Book)
    requires Transfers(net, tx).Some?
    ensures Posted(FlatMap(TransferOperations(net), Transfers(net, tx).value), book)
         == SumOf(OfKind(ESDTTransfer, EventEntries(net, tx, book)), tx.events)
            + SumOf(OfKind(ESDTNFTTransfer, EventEntries(net, tx, book)), tx.events)
            + SumOf(OfKind(MultiESDTNFTTransfer, EventEntries(net, tx, book)), tx.events)
  {
    hide MapAll, FlatMap, SumOf, FindMany, Flatten, EventEntries, OfKind, TransferOperations, Posted;
    var singles :=
      MapAll((e: Event) => SingleTransfer(net, e), FindMany(tx, ESDTTransfer) + FindMany(tx, ESDTNFTTransfer)).value;
    var lists := MapAll((e: Event) => MultiTransfer(net, e), FindMany(tx, MultiESDTNFTTransfer)).value;
    SinglesPosted(net, tx, book);
    MultisPosted(net, tx, book);
    FlatMapConcat(TransferOperations(net), singles, Flatten(lists));
    PostedConcat(FlatMap(TransferOperations(net), singles), FlatMap(TransferOperations(net), Flatten(lists)), book);
  }

  lemma {:induction false} FlatMapConcat<S, T>(f: S -> seq<T>, a: seq<S>, b: seq<S>)
    ensures FlatMap(f, a + b) == FlatMap(f, a) + FlatMap(f, b)
  {
    if b == [] {
      assert a + b == a;
    } else {
      var n := |b| - 1;
      assert (a + b)[..|a + b| - 1] == a + b[..n];
      FlatMapConcat(f, a, b[..n]);
    }
  }

  lemma {:induction false} ValueOnlyPosted(net: Network, tx: Tx, e: Event, book: Book)
    requires tx.epoch >= net.activationEpochSirius
    requires EffectiveTransferValueOnly(net, e).Some?
    ensures var decided := EffectiveTransferValueOnly(net, e).value;
      ValueOnlyEntries(net, tx, book, e)
      == if decided.Some? then Posted(ValueOnlyOperations(net)(decided.value), book) else 0
  {
    hide Posted, Move, Payment, BytesToNat;
    if EffectiveTransferValueOnly(net, e).value.Some? {
      PostedMove(OpTransfer, e.address, net.toAddress(e.topics[1]), BytesToNat(e.topics[0]), net.nativeCurrency, book);
    }
  }

  lemma {:induction false} ValueOnlyIsWellFormed(net: Network, tx: Tx, e: Event)
    requires e.kind == TransferValueOnly && tx.epoch >= net.activationEpochSirius
    ensures IsWellFormed(net, tx, e) <==> EffectiveTransferValueOnly(net, e).Some?
  {
  }

  lemma {:induction false} ValueOnlyTransfersPosted(net: Network, tx: Tx, book: Book)
    requires TransfersValueOnly(net, tx).Some?
    ensures Posted(FlatMap(ValueOnlyOperations(net), TransfersValueOnly(net, tx).value), book)
         == SumOf(OfKind(TransferValueOnly, EventEntries(net, tx, book)), tx.events)
  {
    var g := EventEntries(net, tx, book);
    var raw := FindMany(tx, TransferValueOnly);
    SumOfFiltered(g, IsKind(TransferValueOnly), OfKind(TransferValueOnly, g), tx.events);
    if net.IsReleaseSiriusActive(tx.epoch) {
      var read := (e: Event) => EffectiveTransferValueOnly(net, e);
      var decided := MapAll(read, raw).value;
      var posted := (t: EventTransferValueOnly) => Posted(ValueOnlyOperations(net)(t), book);
      var ofDecided := (o: Option<EventTransferValueOnly>) => if o.Some? then posted(o.value) else 0;
      SumFlatMap(PostedTo(book), ValueOnlyOperations(net), posted, Somes(decided));
      SumOfSomes(posted, ofDecided, decided);
      forall e | e in raw && read(e).Some? ensures ofDecided(read(e).value) == g(e) {
        ValueOnlyPosted(net, tx, e, book);
        ValueOnlyIsWellFormed(net, tx, e);
        EntriesByKind(net, tx, e, book);
      }
      SumOfRead(read, raw, ofDecided, g);
    } else {
      PostedNothing(book);
      forall e | e in raw ensures g(e) == 0 {
        EntriesByKind(net, tx, e, book);
      }
      SumCongruence(g, (e: Event) => 0, raw);
      SumOfZeros(raw);
    }
  }

  lemma {:induction false} SumOfSomes<T>(f: T -> int, g: Option<T> -> int, options: seq<Option<T>>)
    requires forall o :: g(o) == if o.Some? then f(o.value) else 0
    ensures SumOf(f, Somes(options)) == SumOf(g, options)
  {
    var some := (o: Option<T>) => if o.Some? then [o.value] else [];
    forall o: Option<T> | o in options ensures SumOf(f, some(o)) == g(o) {
      if o.Some? {
        SumOfOne(f, o.value);
      }
    }
    SumFlatMap(f, some, g, options);
  }

  // ---------------------------------------------------------------- all events of a transaction

  function SumByKind(g: Event -> int, events: seq<Event>): int {
    SumOf(OfKind(SCDeploy, g), events) + SumOf(OfKind(TransferValueOnly, g), events)
    + (SumOf(OfKind(ESDTTransfer, g), events) + SumOf(OfKind(ESDTNFTTransfer, g), events)
       + SumOf(OfKind(MultiESDTNFTTransfer, g), events))
    + SumOf(OfKind(ESDTLocalBurn, g), events) + SumOf(OfKind(ESDTLocalMint, g), events)
    + SumOf(OfKind(ESDTWipe, g), events) + SumOf(OfKind(ESDTNFTCreate, g), events)
    + SumOf(OfKind(ESDTNFTBurn, g), events) + SumOf(OfKind(ESDTNFTAddQuantity, g), events)
    + SumOf(OfKind(ClaimDeveloperRewards, g), events)
  }

  predicate IsOtherKind(kind: EventKind) {
    kind.OtherEvent? || kind == SignalError
  }

  lemma {:induction false} NothingByKind(g: Event -> int)
    ensures SumByKind(g, []) == 0
  {
  }

  lemma {:induction false} SplitByKind(g: Event -> int, events: seq<Event>)
    requires forall e: Event :: IsOtherKind(e.kind) ==> g(e) == 0
    ensures SumOf(g, events) == SumByKind(g, events)
  {
    hide SumByKind;
    if events == [] {
      NothingByKind(g);
    } else {
      var init, last := events[..|events| - 1], events[|events| - 1];
      SplitByKind(g, init);
      OneMoreByKind(g, init, last);
      assert events == init + [last];
      SumConcat(g, init, [last]);
      SumOfOne(g, last);
    }
  }

  lemma {:induction false} OneMoreByKind(g: Event -> int, init: seq<Event>, last: Event)
    requires IsOtherKind(last.kind) ==> g(last) == 0
    ensures SumByKind(g, init + [last]) == SumByKind(g, init) + g(last)
  {
    hide SumOf, OfKind;
    OneMoreOfKind(SCDeploy, g, init, last);
    OneMoreOfKind(TransferValueOnly, g, init, last);
    OneMoreOfKind(ESDTTransfer, g, init, last);
    OneMoreOfKind(ESDTNFTTransfer, g, init, last);
    OneMoreOfKind(MultiESDTNFTTransfer, g, init, last);
    OneMoreOfKind(ESDTLocalBurn, g, init, last);
    OneMoreOfKind(ESDTLocalMint, g, init, last);
    OneMoreOfKind(ESDTWipe, g, init, last);
    OneMoreOfKind(ESDTNFTCreate, g, init, last);
    OneMoreOfKind(ESDTNFTBurn, g, init, last);
    OneMoreOfKind(ESDTNFTAddQuantity, g, init, last);
    OneMoreOfKind(ClaimDeveloperRewards, g, init, last);
  }

  lemma {:induction false} OneMoreOfKind(kind: EventKind, g: Event -> int, init: seq<Event>, last: Event)
    ensures SumOf(OfKind(kind, g), init + [last])
         == SumOf(OfKind(kind, g), init) + (if last.kind == kind then g(last) else 0)
  {
    SumConcat(OfKind(kind, g), init, [last]);
    SumOfOne(OfKind(kind, g), last);
  }

  lemma {:induction false} OtherKindsPostNothing(net: Network, tx: Tx, e: Event, book: Book)
    ensures IsOtherKind(e.kind) ==> EventEntries(net, tx, book)(e) == 0
  {
  }

  lemma {:induction false} SupplyKindPosted(
      net: Network, tx: Tx, kind: EventKind, numTopics: nat, sign: int, book: Book)
    requires || (sign == -1 && numTopics == 3 && (kind == ESDTLocalBurn || kind == ESDTNFTBurn))
             || (sign == 1 && numTopics == 3 && (kind == ESDTLocalMint || kind == ESDTNFTAddQuantity))
             || (sign == 1 && numTopics == 4 && kind == ESDTNFTCreate)
    requires MapAll(OneSided(numTopics), FindMany(tx, kind)).Some?
    ensures Posted(FlatMap(SupplyOperations(net, sign), MapAll(OneSided(numTopics), FindMany(tx, kind)).value), book)
         == SumOf(OfKind(kind, EventEntries(net, tx, book)), tx.events)
  {
    hide EventEntries, Posted, SupplyOperations, TokensEntries;
    var g := EventEntries(net, tx, book);
    forall e: Event | e.kind == kind && OneSided(numTopics)(e).Some?
      ensures Posted(SupplyOperations(net, sign)(OneSided(numTopics)(e).value), book) == g(e)
    {
      OneSidedPosted(net, e, numTopics, sign, book);
      EntriesByKind(net, tx, e, book);
    }
    KindPostings(tx, kind, OneSided(numTopics), SupplyOperations(net, sign), book, g);
  }

  lemma {:induction false} WipesPosted(net: Network, tx: Tx, book: Book)
    requires MapAll((e: Event) => Wipe(net, e), FindMany(tx, ESDTWipe)).Some?
    ensures Posted(FlatMap(SupplyOperations(net, -1), MapAll((e: Event) => Wipe(net, e), FindMany(tx, ESDTWipe)).value),
                   book)
         == SumOf(OfKind(ESDTWipe, EventEntries(net, tx, book)), tx.events)
  {
    hide EventEntries, Posted, SupplyOperations, TokensEntries;
    var g := EventEntries(net, tx, book);
    var read := (e: Event) => Wipe(net, e);
    forall e: Event | e.kind == ESDTWipe && read(e).Some?
      ensures Posted(SupplyOperations(net, -1)(read(e).value), book) == g(e)
    {
      WipePosted(net, e, book);
      EntriesByKind(net, tx, e, book);
    }
    KindPostings(tx, ESDTWipe, read, SupplyOperations(net, -1), book, g);
  }

  lemma {:induction false} DeploysPosted(net: Network, tx: Tx, book: Book)
    requires MapAll((e: Event) => Deploy(net, e), FindMany(tx, SCDeploy)).Some?
    ensures Posted(FlatMap(DeployOperations(net, tx),
                           MapAll((e: Event) => Deploy(net, e), FindMany(tx, SCDeploy)).value), book)
         == SumOf(OfKind(SCDeploy, EventEntries(net, tx, book)), tx.events)
  {
    hide EventEntries, Posted, DeployOperations, DeployEntries;
    var g := EventEntries(net, tx, book);
    var read := (e: Event) => Deploy(net, e);
    forall e: Event | e.kind == SCDeploy && read(e).Some?
      ensures Posted(DeployOperations(net, tx)(read(e).value), book) == g(e)
    {
      DeployPosted(net, tx, e, book);
      EntriesByKind(net, tx, e, book);
    }
    KindPostings(tx, SCDeploy, read, DeployOperations(net, tx), book, g);
  }

  lemma {:induction false} ClaimsPosted(net: Network, tx: Tx, book: Book)
    requires MapAll((e: Event) => DeveloperRewards(net, e), FindMany(tx, ClaimDeveloperRewards)).Some?
    ensures Posted(FlatMap(RewardsOperations(net, tx),
                           MapAll((e: Event) => DeveloperRewards(net, e), FindMany(tx, ClaimDeveloperRewards)).value),
                   book)
         == SumOf(OfKind(ClaimDeveloperRewards, EventEntries(net, tx, book)), tx.events)
  {
    hide EventEntries, Posted, RewardsOperations, ClaimEntries;
    var g := EventEntries(net, tx, book);
    var read := (e: Event) => DeveloperRewards(net, e);
    forall e: Event | e.kind == ClaimDeveloperRewards && read(e).Some?
      ensures Posted(RewardsOperations(net, tx)(read(e).value), book) == g(e)
    {
      ClaimPosted(net, tx, e, book);
      EntriesByKind(net, tx, e, book);
    }
    KindPostings(tx, ClaimDeveloperRewards, read, RewardsOperations(net, tx), book, g);
  }

  lemma {:induction false} PostedTen(
      a: seq<Op>, b: seq<Op>, c: seq<Op>, d: seq<Op>, e: seq<Op>, f: seq<Op>, g: seq<Op>, h: seq<Op>, i: seq<Op>,
      j: seq<Op>, book: Book)
    ensures Posted(a + b + c + d + e + f + g + h + i + j, book)
         == Posted(a, book) + Posted(b, book) + Posted(c, book) + Posted(d, book) + Posted(e, book)
            + Posted(f, book) + Posted(g, book) + Posted(h, book) + Posted(i, book) + Posted(j, book)
  {
    hide Posted;
    PostedConcat(a, b, book);
    PostedConcat(a + b, c, book);
    PostedConcat(a + b + c, d, book);
    PostedConcat(a + b + c + d, e, book);
    PostedConcat(a + b + c + d + e, f, book);
    PostedConcat(a + b + c + d + e + f, g, book);
    PostedConcat(a + b + c + d + e + f + g, h, book);
    PostedConcat(a + b + c + d + e + f + g + h, i, book);
    PostedConcat(a + b + c + d + e + f + g + h + i, j, book);
  }

  /** For every account, currency and kind of operation: what the operations of a transaction's events post is what
      the raw events say, and nothing where an error was signalled. */
  lemma {:induction false} EventPostings(net: Network, tx: Tx, book: Book)
    ensures var ofEvents := EventOperations(net, tx);
      ofEvents.Some? ==>
        Posted(ofEvents.value, book)
        == if SignalsError(tx) then 0 else SumOf(EventEntries(net, tx, book), tx.events)
  {
    if EventOperations(net, tx).Some? && SignalsError(tx) {
      PostedNothing(book);
    } else if EventOperations(net, tx).Some? {
      ReadEventsPosted(net, tx, book);
    }
  }

  lemma {:induction false} ReadEventsPosted(net: Network, tx: Tx, book: Book)
    requires AllEvents(net, tx).Some?
    ensures Posted(OperationsOfEvents(net, tx, AllEvents(net, tx).value), book)
         == SumOf(EventEntries(net, tx, book), tx.events)
  {
    hide Posted, MapAll, FindMany, FlatMap, SumOf, OfKind, EventEntries, SupplyOperations, DeployOperations,
         ValueOnlyOperations, TransferOperations, RewardsOperations, Transfers, TransfersValueOnly, Deploy, Wipe,
         DeveloperRewards, OneSided;
    var events := AllEvents(net, tx).value;
    PostedTen(
      FlatMap(DeployOperations(net, tx), events.deploys),
      FlatMap(ValueOnlyOperations(net), events.transfersValueOnly),
      FlatMap(TransferOperations(net), events.transfers),
      FlatMap(SupplyOperations(net, -1), events.burns),
      FlatMap(SupplyOperations(net, 1), events.mints),
      FlatMap(SupplyOperations(net, -1), events.wipes),
      FlatMap(SupplyOperations(net, 1), events.creates),
      FlatMap(SupplyOperations(net, -1), events.nftBurns),
      FlatMap(SupplyOperations(net, 1), events.additions),
      FlatMap(RewardsOperations(net, tx), events.rewards), book);
    DeploysPosted(net, tx, book);
    ValueOnlyTransfersPosted(net, tx, book);
    TransfersPosted(net, tx, book);
    SupplyKindPosted(net, tx, ESDTLocalBurn, 3, -1, book);
    SupplyKindPosted(net, tx, ESDTLocalMint, 3, 1, book);
    WipesPosted(net, tx, book);
    SupplyKindPosted(net, tx, ESDTNFTCreate, 4, 1, book);
    SupplyKindPosted(net, tx, ESDTNFTBurn, 3, -1, book);
    SupplyKindPosted(net, tx, ESDTNFTAddQuantity, 3, 1, book);
    ClaimsPosted(net, tx, book);
    forall e: Event ensures IsOtherKind(e.kind) ==> EventEntries(net, tx, book)(e) == 0 {
      OtherKindsPostNothing(net, tx, e, book);
    }
    SplitByKind(EventEntries(net, tx, book), tx.events);
  }

  // ---------------------------------------------------------------- which events are recognised

  lemma {:induction false} ReadExactly<T>(tx: Tx, kind: EventKind, read: Event -> Option<T>)
    ensures MapAll(read, FindMany(tx, kind)).Some? <==>
              forall e :: e in tx.events && e.kind == kind ==> read(e).Some?
  {
    var raw := FindMany(tx, kind);
    MapAllElements(read, raw);
    forall e | e in tx.events && e.kind == kind ensures e in raw {
      KeptByFilter(IsKind(kind), tx.events, e);
    }
    if forall e :: e in raw ==> read(e).Some? {
      forall i | 0 <= i < |raw| ensures read(raw[i]).Some? {
        assert raw[i] in raw;
      }
    }
  }

  lemma {:induction false} KeptByFilter<S>(keep: S -> bool, s: seq<S>, x: S)
    requires x in s && keep(x)
    ensures x in Filter(keep, s)
  {
    var n := |s| - 1;
    if x != s[n] {
      KeptByFilter(keep, s[..n], x);
    }
  }

  lemma {:induction false} MapAllConcat<S, T>(f: S -> Option<T>, a: seq<S>, b: seq<S>)
    ensures MapAll(f, a + b).Some? <==> MapAll(f, a).Some? && MapAll(f, b).Some?
  {
    if b == [] {
      assert a + b == a;
    } else {
      var n := |b| - 1;
      assert (a + b)[..|a + b| - 1] == a + b[..n];
      MapAllConcat(f, a, b[..n]);
    }
  }

  ghost predicate KindIsWellFormed(net: Network, tx: Tx, kind: EventKind) {
    forall e :: e in tx.events && e.kind == kind ==> IsWellFormed(net, tx, e)
  }

  lemma {:induction false} KindIsReadExactly<T>(net: Network, tx: Tx, kind: EventKind, read: Event -> Option<T>)
    requires forall e: Event :: e.kind == kind ==> (read(e).Some? <==> IsWellFormed(net, tx, e))
    ensures MapAll(read, FindMany(tx, kind)).Some? <==> KindIsWellFormed(net, tx, kind)
  {
    hide MapAll, FindMany, IsWellFormed;
    ReadExactly(tx, kind, read);
  }

  lemma {:induction false} TransfersExactly(net: Network, tx: Tx)
    ensures Transfers(net, tx).Some? <==>
              && KindIsWellFormed(net, tx, ESDTTransfer) && KindIsWellFormed(net, tx, ESDTNFTTransfer)
              && KindIsWellFormed(net, tx, MultiESDTNFTTransfer)
  {
    hide MapAll, FindMany, Flatten, KindIsWellFormed;
    var single, multi := (e: Event) => SingleTransfer(net, e), (e: Event) => MultiTransfer(net, e);
    forall e: Event ensures multi(e).Some? <==> |e.topics| % 3 == 1 {
      MultiTransferAcceptsExactlyFlattened(net, e);
    }
    KindIsReadExactly(net, tx, ESDTTransfer, single);
    KindIsReadExactly(net, tx, ESDTNFTTransfer, single);
    KindIsReadExactly(net, tx, MultiESDTNFTTransfer, multi);
    MapAllConcat(single, FindMany(tx, ESDTTransfer), FindMany(tx, ESDTNFTTransfer));
  }

  lemma {:induction false} ValueOnlyExactly(net: Network, tx: Tx)
    ensures TransfersValueOnly(net, tx).Some? <==> KindIsWellFormed(net, tx, TransferValueOnly)
  {
    if net.IsReleaseSiriusActive(tx.epoch) {
      hide MapAll, FindMany, Somes, EffectiveTransferValueOnly, IsWellFormed;
      forall e: Event | e.kind == TransferValueOnly
        ensures IsWellFormed(net, tx, e) <==> EffectiveTransferValueOnly(net, e).Some?
      {
        ValueOnlyIsWellFormed(net, tx, e);
      }
      KindIsReadExactly(net, tx, TransferValueOnly, (e: Event) => EffectiveTransferValueOnly(net, e));
    }
  }

  lemma {:induction false} ReadsWellFormed(net: Network, tx: Tx, e: Event)
    ensures e.kind == SCDeploy ==> (Deploy(net, e).Some? <==> IsWellFormed(net, tx, e))
    ensures e.kind == ESDTWipe ==> (Wipe(net, e).Some? <==> IsWellFormed(net, tx, e))
    ensures e.kind == ClaimDeveloperRewards ==> (DeveloperRewards(net, e).Some? <==> IsWellFormed(net, tx, e))
    ensures e.kind in {ESDTLocalBurn, ESDTLocalMint, ESDTNFTBurn, ESDTNFTAddQuantity} ==>
              (OneSided(3)(e).Some? <==> IsWellFormed(net, tx, e))
    ensures e.kind == ESDTNFTCreate ==> (OneSided(4)(e).Some? <==> IsWellFormed(net, tx, e))
    ensures IsOtherKind(e.kind) ==> IsWellFormed(net, tx, e)
  {
  }

  lemma {:induction false} AllEventsExactly(net: Network, tx: Tx)
    ensures AllEvents(net, tx).Some? <==>
              && KindIsWellFormed(net, tx, SCDeploy) && KindIsWellFormed(net, tx, TransferValueOnly)
              && KindIsWellFormed(net, tx, ESDTTransfer) && KindIsWellFormed(net, tx, ESDTNFTTransfer)
              && KindIsWellFormed(net, tx, MultiESDTNFTTransfer)
              && KindIsWellFormed(net, tx, ESDTLocalBurn) && KindIsWellFormed(net, tx, ESDTLocalMint)
              && KindIsWellFormed(net, tx, ESDTWipe) && KindIsWellFormed(net, tx, ESDTNFTCreate)
              && KindIsWellFormed(net, tx, ESDTNFTBurn) && KindIsWellFormed(net, tx, ESDTNFTAddQuantity)
              && KindIsWellFormed(net, tx, ClaimDeveloperRewards)
  {
    hide MapAll, FindMany, Transfers, TransfersValueOnly, IsWellFormed, KindIsWellFormed, Deploy, Wipe,
         DeveloperRewards, OneSided;
    forall e: Event
      ensures e.kind == SCDeploy ==> (Deploy(net, e).Some? <==> IsWellFormed(net, tx, e))
      ensures e.kind == ESDTWipe ==> (Wipe(net, e).Some? <==> IsWellFormed(net, tx, e))
      ensures e.kind == ClaimDeveloperRewards ==> (DeveloperRewards(net, e).Some? <==> IsWellFormed(net, tx, e))
      ensures e.kind in {ESDTLocalBurn, ESDTLocalMint, ESDTNFTBurn, ESDTNFTAddQuantity} ==>
                (OneSided(3)(e).Some? <==> IsWellFormed(net, tx, e))
      ensures e.kind == ESDTNFTCreate ==> (OneSided(4)(e).Some? <==> IsWellFormed(net, tx, e))
    {
      ReadsWellFormed(net, tx, e);
    }
    KindIsReadExactly(net, tx, SCDeploy, (e: Event) => Deploy(net, e));
    KindIsReadExactly(net, tx, ESDTLocalBurn, OneSided(3));
    KindIsReadExactly(net, tx, ESDTLocalMint, OneSided(3));
    KindIsReadExactly(net, tx, ESDTWipe, (e: Event) => Wipe(net, e));
    KindIsReadExactly(net, tx, ESDTNFTCreate, OneSided(4));
    KindIsReadExactly(net, tx, ESDTNFTBurn, OneSided(3));
    KindIsReadExactly(net, tx, ESDTNFTAddQuantity, OneSided(3));
    KindIsReadExactly(net, tx, ClaimDeveloperRewards, (e: Event) => DeveloperRewards(net, e));
    TransfersExactly(net, tx);
    ValueOnlyExactly(net, tx);
  }

  /** The events of a transaction can be shown if and only if an error was signalled, or all of them have the topics
      that their kind must have. */
  lemma {:induction false} EventsAreReadExactly(net: Network, tx: Tx)
    ensures EventOperations(net, tx).Some? <==>
              SignalsError(tx) || forall e :: e in tx.events ==> IsWellFormed(net, tx, e)
  {
    hide AllEvents, IsWellFormed;
    AllEventsExactly(net, tx);
    forall e | e in tx.events ensures IsOtherKind(e.kind) ==> IsWellFormed(net, tx, e) {
      ReadsWellFormed(net, tx, e);
    }
  }

  // ---------------------------------------------------------------- whole blocks

  /** What a transaction and its events post. */
  function TxEntries(net: Network, txsInBlock: seq<Tx>, book: Book): Tx -> int {
    (tx: Tx) =>
      OwnEntries(net, tx, txsInBlock, book)
      + (if SignalsError(tx) then 0 else SumOf(EventEntries(net, tx, book), tx.events))
  }

  /** A refund receipt gives its value to the sender of the transaction. */
  function ReceiptEntries(net: Network, book: Book): Receipt -> int {
    (receipt: Receipt) =>
      if receipt.data == "refundedGas" then
        Entry(book, OpFeeRefund, receipt.sender, receipt.value, net.nativeCurrency, false)
      else 0
  }

  function PostedByTx(book: Book): RosettaTx -> int {
    (rosettaTx: RosettaTx) => Posted(rosettaTx.operations, book)
  }

  lemma {:induction false} TxPostings(net: Network, txsInBlock: seq<Tx>, tx: Tx, book: Book)
    requires TxToRosettaTx(net, txsInBlock)(tx).Some?
    ensures PostedByTx(book)(TxToRosettaTx(net, txsInBlock)(tx).value) == TxEntries(net, txsInBlock, book)(tx)
    ensures TxToRosettaTx(net, txsInBlock)(tx).value.hash == tx.hash
  {
    hide Posted, OwnOperations, EventOperations, OwnEntries, EventEntries, SumOf, MetadataOf, SignalsError;
    PostedConcat(OwnOperations(net, tx, txsInBlock).value, EventOperations(net, tx).value, book);
    OwnPostings(net, tx, txsInBlock, book);
    EventPostings(net, tx, book);
  }

  lemma {:induction false} ReceiptPostings(net: Network, receipt: Receipt, book: Book)
    requires receipt.data == "refundedGas" && RefundReceiptToRosettaTx(net)(receipt).Some?
    ensures PostedByTx(book)(RefundReceiptToRosettaTx(net)(receipt).value) == ReceiptEntries(net, book)(receipt)
    ensures net.receiptHash(receipt) == Some(RefundReceiptToRosettaTx(net)(receipt).value.hash)
  {
    hide Posted, Entry;
    PostedOne(OpFeeRefund, receipt.sender, receipt.value, net.nativeCurrency, book);
  }

  /** For every account, currency and kind of operation: before any operation is filtered, a block posts what its
      transactions, their events and its refund receipts say. */
  lemma {:induction false} BlockPostings(net: Network, txs: seq<Tx>, receipts: seq<Receipt>, book: Book)
    ensures var generated, filtered := GenerateBlock(net, txs, receipts), FilterTransactions(txs);
      generated.Some? ==>
        SumOf(PostedByTx(book), generated.value)
        == SumOf(TxEntries(net, filtered, book), filtered) + SumOf(ReceiptEntries(net, book), receipts)
  {
    hide FilterTransactions, TxToRosettaTx, RefundReceiptToRosettaTx, TxEntries, ReceiptEntries, PostedByTx;
    if GenerateBlock(net, txs, receipts).Some? {
      var filtered, refunds := FilterTransactions(txs), Filter(IsRefundReceipt(), receipts);
      var toRosetta, ofReceipt := TxToRosettaTx(net, filtered), RefundReceiptToRosettaTx(net);
      SumConcat(PostedByTx(book), MapAll(toRosetta, filtered).value, MapAll(ofReceipt, refunds).value);
      forall tx | tx in filtered && toRosetta(tx).Some?
        ensures PostedByTx(book)(toRosetta(tx).value) == TxEntries(net, filtered, book)(tx)
      {
        TxPostings(net, filtered, tx, book);
      }
      SumOfRead(toRosetta, filtered, PostedByTx(book), TxEntries(net, filtered, book));
      forall receipt | receipt in refunds && ofReceipt(receipt).Some?
        ensures PostedByTx(book)(ofReceipt(receipt).value) == ReceiptEntries(net, book)(receipt)
      {
        ReceiptPostings(net, receipt, book);
      }
      SumOfRead(ofReceipt, refunds, PostedByTx(book), ReceiptEntries(net, book));
      OnlyRefundsPost(net, receipts, book);
    }
  }

  lemma {:induction false} OnlyRefundsPost(net: Network, receipts: seq<Receipt>, book: Book)
    ensures SumOf(ReceiptEntries(net, book), Filter(IsRefundReceipt(), receipts))
         == SumOf(ReceiptEntries(net, book), receipts)
  {
    SumOfFiltered(ReceiptEntries(net, book), IsRefundReceipt(), ReceiptEntries(net, book), receipts);
  }
}
