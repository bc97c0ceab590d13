# Verification of the Rosetta server's data path

A Dafny model of the parts of this repository that decide *what a client is told*: which transactions take effect in
a block, which balance-changing operations they stand for, which blocks may come out of the cache, and how a transfer
intent travels through the construction flow. `dafny verify dfyconfig.toml` checks everything. Nothing here was
executed; every statement below is a theorem about the model.

Notation used throughout: `None`/`Failure` stand for the error returns of the Go code; log topics, hashes, addresses
and other Go strings are sequences of bytes (`Encoding.Bytes`, characters below 256); 64-bit wrap-around is written
out where the source computes in `uint64`.

## What is modelled

1. **Scheduled miniblocks** — `Chain` (data as values), `ScheduledSpec` (reachability and map algebra),
   `ExactlyOnce` (whole chains), `Listings` (the lists that a chain hands out), `TwoPaths` (the early
   return against the general path), `BlockObjects` and `ScheduledMiniblocks` (the loops, on shared objects, with the
   block rewritten in place). Main results: over a whole
   chain each hash is effective in exactly one block (`ExactlyOnce.ChainServesEachHashOnce`), with the exact condition
   for a hash that two blocks list (`ExactlyOnce.ListedTwiceEffectiveOnce`); no hash is ever lost
   (`ExactlyOnce.ChainLosesNothing`); and the exact condition under which the lists hold it exactly once
   (`Listings.ChainHandsOutEachHashOnce`).
2. **Block to operations** — `Network`, `Events`, `Operations`, `Transformer` (specification on values), `Postings`
   (who pays and who receives, told from the protocol's data alone), `Ledger` (double-entry bookkeeping), `Observers`
   (which instance serves what), `ServedBalances` (from the protocol's data to the balances clients see),
   `OperationObjects` and `BlockTransformer` (the loops, on objects that are overwritten in place). Main results: for
   every account and currency, what the served operations of a block do is an explicit sum over its transactions, raw
   log events and refund receipts (`ServedBalances.ServedEffects`, from `Postings.OwnPostings` and
   `Postings.EventPostings`); conservation (`Ledger.BlockConserves`); the filters keep the meaning for observed accounts
   (`Ledger.FiltersKeepMeaning`); Go's map iteration order does not matter (`Transformer.TransformPermutation`);
   instances partition the totals, by shard (`Ledger.InstancesPartitionBlock`), by contracts
   (`Observers.ContractsAreLeftOutOfBlock`) and by projected shard (`Observers.ProjectionsPartitionBlock`).
3. **Cache, finality, genesis** — `CacheProtocol` and `GenesisProtocol` are state machines over atomic steps that
   interleave freely; `NetworkProvider` is the provider's class with its cache of shared objects; `Serving` goes from
   the cache to the emitted transactions twice in a row. Main results: safety over all runs
   (`CacheProtocol.EveryRunIsSafe`, `GenesisProtocol.EveryRunIsSafe`), answers that never change
   (`CacheProtocol.AnswersNeverChange`), and exactly which callers get the genesis block
   (`GenesisProtocol.ReturnsBlockUnlessItsFetchFailed`).
4. **Construction flow and codecs** — `Encoding` (hex, big-endian integers, decimal text, separators),
   `TokenIdentifier`, `Construction` (Preprocess, Metadata, Payloads, Parse, fees). Main results: which intents are
   built (`Construction.IntentIsBuiltExactly`), into which transaction (`Construction.BuiltFromIntent`), and when it is
   parsed back as the intent (`Construction.IntentRoundTrip`).

## What turned out not to hold as one would hope

- `GetBlockByHash` has no finality check. From any safe state and for any block, a request by hash that nothing
  interferes with keeps the cache safe if and only if the block has no predecessor, or has a successor and is below the
  highest final one, or has none and its predecessor is final (`CacheProtocol.ByHashIsSafeExactly`). In the last case
  the request fails, and may still have cached a block that is not final. `CacheProtocol.UnguardedByHashServesStale`
  builds a whole run that ends in a request by nonce for a final block, answered with a rolled-back one.
- Preprocess takes the sender from the first operation, whatever its sign. A transfer listed with the credit first is
  built without complaint and pays the other way round (`Construction.CreditFirstIsReversed`).
- A native transfer whose free data starts with `ESDTTransfer` is not parsed back as what it is;
  `Construction.NativeTransferIsMisread` builds one that cannot be parsed at all.
- Otherwise a transfer is parsed back: position by position if and only if the debit is listed first and the overrides
  name the accounts of the operations (`Construction.IntentRoundTrip`), up to order if and only if the sender is the
  account debited and the receiver the one credited (`Construction.IntentRoundTripUpToOrder`).
- A hash listed in two consecutive blocks takes effect in two blocks when the first of them has nothing scheduled, or
  when both it and the block before take the hash ahead; in all other cases in one
  (`ExactlyOnce.ListedTwiceEffectiveOnce`, `ExactlyOnce.ListedTwiceEffectiveCount`). Chains on which each happens:
  `ExactlyOnce.RepeatedUnscheduledTakesEffectTwice`, `ExactlyOnce.TakenAheadTwiceTakesEffectTwice`.
- The early return keeps duplicates, the general path does not. The lists hold a hash as often as it takes effect if and
  only if no block that returns early lists it more than once (`Listings.HandedOutAsOftenAsEffective`). The two paths
  give the same transactions if and only if no hash is listed with different contents
  (`ScheduledSpec.EarlyReturnAgrees`). A relayed transaction and its invalid form, which share a hash, are both handed
  out early, and only the one listed last otherwise (`Listings.InvalidPairIsHandedOutTwice`,
  `ScheduledSpec.EarlyReturnKeepsInvalidPair`). After the service's filters the two paths agree if and only if nothing
  that survives the filters is followed by another transaction of its hash (`TwoPaths.PathsAgreeExactly`); with the
  invalid form listed before the relayed one they do not, and the general path serves the relayed one as if it were
  valid (`TwoPaths.InvalidListedFirstIsLost`).
- Accepted requests are covered by gas limit times gas price if and only if the 64-bit gas estimate does not wrap
  around (`Construction.AllCoveredExactly`), and pay for moving their data at the minimum price if and only if the
  movement gas fits into 64 bits or that price is zero (`Construction.AllPayForMovementExactly`).
  `Construction.WrappedEstimateBreaksUpperBound` gives a configuration in which the estimate wraps.
- A printed extended token identifier parses back if and only if the identifier has exactly one dash and the nonce
  fits into 64 bits (`TokenIdentifier.ExtendedIdentifierParsesBackExactly`). One without a dash is refused, one with two
  may be misread (`TokenIdentifier.WithoutDashIsRefused`, `TokenIdentifier.SecondDashIsMisread`).
- The comment in `createBlockCopy` says that transactions themselves are never mutated; `transformBlockTxs` does write
  their block nonce. `Serving.ServeTwice` shows that this does no harm.

## Model

| member | source | states |
|---|---|---|
| ScheduledSpec.SearchEndsExactlyWhenAcyclic | server/provider/scheduledMiniblocks.go:161-183 | the recursion from a root ends iff no item below the root hangs below itself; it then needs no more depth than there are items below, and otherwise no depth is enough |
| ScheduledSpec.AcyclicExactlyWhenRanked | server/provider/scheduledMiniblocks.go:161-183 | the own-shard parent links below a root admit a falling measure iff no item there hangs below itself |
| ScheduledSpec.StrictDescent | server/provider/scheduledMiniblocks.go:169-180 | following one link strictly shrinks the set of items below, the termination measure of the recursion |
| ScheduledSpec.ReachableByPath | server/provider/scheduledMiniblocks.go:161-183 | an item is reachable iff it ends a path of own-shard items, each of which names the hash of the one before, the first that of the root |
| ScheduledSpec.DescendantsExactlyReachable | server/provider/scheduledMiniblocks.go:137-183 | the search returns exactly the items reachable by links all of whose nodes come from the own shard |
| ScheduledSpec.SubtreesAreDisjoint | server/provider/scheduledMiniblocks.go:161-183 | with distinct hashes an item hangs below at most one child of a root |
| ScheduledSpec.DescendantsHaveNoDuplicates | server/provider/scheduledMiniblocks.go:161-183 | with distinct hashes one root's result has no duplicate and is no longer than the candidate list |
| ScheduledSpec.ImmediateResultsExactly | server/provider/scheduledMiniblocks.go:137-159 | over several roots the results are exactly the items reachable from some root |
| ScheduledSpec.LastByHashKeepsLast | server/provider/scheduledMiniblocks.go:101-104 | writing into the map keeps the last transaction of each hash |
| ScheduledSpec.EffectiveByHashRefines | server/provider/scheduledMiniblocks.go:93-125 | the map computed term by term holds exactly (current, minus previous and previously executed results if the previous block has scheduled transactions) plus currently executed results, and under each hash the transaction written last |
| ScheduledSpec.EarlyReturnAgrees | server/provider/scheduledMiniblocks.go:73-76 | the early return lists the same hashes as the general path, and the same transactions iff no hash is listed with different contents |
| ScheduledSpec.EarlyReturnKeepsInvalidPair | server/provider/scheduledMiniblocks.go:73-76 | a relayed transaction and its invalid form of one hash are both returned early, where the general path keeps one |
| ExactlyOnce.SummaryIsFaithful | server/provider/scheduledMiniblocks.go:67-135 | what one block takes ahead is exactly what the next leaves out, so a chain of one shard is a run of block summaries |
| ExactlyOnce.ListedOnceEffectiveOnce | server/provider/scheduledMiniblocks.go:67-135 | a hash listed in one block takes effect in exactly one: the block before if it is taken ahead there, else its own |
| ExactlyOnce.ListedTwiceEffectiveOnce | server/provider/scheduledMiniblocks.go:67-135 | a hash listed in two consecutive blocks takes effect exactly once iff the first has scheduled transactions and the hash is not taken ahead by both it and the block before |
| ExactlyOnce.ListedTwiceEffectiveCount | server/provider/scheduledMiniblocks.go:67-135 | in how many blocks such a hash takes effect: one under that condition, two otherwise |
| ExactlyOnce.RepeatedUnscheduledTakesEffectTwice | server/provider/scheduledMiniblocks.go:106-118 | a chain of blocks on which a hash takes effect twice because nothing is scheduled in the first block that lists it |
| ExactlyOnce.TakenAheadTwiceTakesEffectTwice | server/provider/scheduledMiniblocks.go:120-125 | a chain of blocks on which a hash takes effect twice because two blocks in a row take it ahead |
| ExactlyOnce.NothingIsLost | server/provider/scheduledMiniblocks.go:67-135 | whatever else lists it, a hash takes effect in the first block that lists it or in the one before |
| ExactlyOnce.ChainLosesNothing | server/provider/scheduledMiniblocks.go:67-135 | the same for the effective hashes of blocks of a chain |
| ExactlyOnce.RunServesEachHashOnce | server/provider/scheduledMiniblocks.go:67-135 | put together with repetitions, what a run serves holds each properly listed inner hash once and no unlisted hash; if all are inner, exactly the listed hashes |
| ExactlyOnce.ChainServesEachHashOnce | server/provider/scheduledMiniblocks.go:67-135 | the same for any chain of blocks of one shard, with the effective hashes of each three neighbours |
| Listings.HandedOutAsOftenAsEffective | server/provider/scheduledMiniblocks.go:67-135 | for any chain and hash, the returned lists hold the hash as often as it takes effect iff no block that returns early lists it more than once, and never less often |
| Listings.ChainHandsOutEachHashOnce | server/provider/scheduledMiniblocks.go:67-135 | a properly listed inner hash is handed out exactly once, over all lists, iff no block that returns early lists it more than once; an unlisted one never |
| Listings.FirstListingIsHandedOut | server/provider/scheduledMiniblocks.go:67-135 | the list of the block that lists a hash first holds it, or the list of the block before does |
| Listings.InvalidPairIsHandedOutTwice | server/provider/scheduledMiniblocks.go:73-76 | the early return hands out the shared hash of a relayed and an invalid transaction twice |
| TwoPaths.PathsAgreeExactly | server/services/transactionFilters.go:8-54 | after the service's filters, the early return and the general path give the same transactions up to order iff no survivor is followed by another transaction of its hash |
| TwoPaths.FilteredExactly | server/services/transactionFilters.go:8-54 | a transaction is left as often as it was listed, unless it is a contract result of, or a relayed form of, an invalid transaction of the block; then not at all |
| TwoPaths.PathsServeTheSame | server/services/transactionsTransformer.go:47-86 | under that condition both are served as the same Rosetta transactions up to order |
| TwoPaths.FilteredTwice | server/services/transactionFilters.go:8-54 | filtering again changes nothing |
| TwoPaths.InvalidListedFirstIsLost | server/services/transactionFilters.go:32-54 | an invalid transaction listed before its relayed form is lost on the general path, and the relayed one passes the filters |
| ScheduledMiniblocks.GatherAllTransactions | server/provider/scheduledMiniblocks.go:204-214 | the loops gather exactly the block's transaction objects in order |
| Chain.ListedExactly | server/provider/scheduledMiniblocks.go:204-227 | a transaction or receipt is gathered iff some miniblock lists it |
| Chain.ScheduledExactly | server/provider/scheduledMiniblocks.go:186-201 | a transaction is scheduled iff some miniblock whose processing type is the text "Scheduled" lists it |
| ScheduledMiniblocks.GatherScheduledTransactions | server/provider/scheduledMiniblocks.go:186-201 | only those of miniblocks whose processing type is "Scheduled" |
| ScheduledMiniblocks.GatherAllReceipts | server/provider/scheduledMiniblocks.go:217-227 | exactly the block's receipts in order |
| ScheduledMiniblocks.IndexByPreviousHash | server/provider/scheduledMiniblocks.go:144-150 | the look-up gives, for every hash, its direct descendants in order |
| ScheduledMiniblocks.FindImmediatelyExecutingContractResultsOfTransaction | server/provider/scheduledMiniblocks.go:161-183 | the recursive loop terminates and returns the own-shard descendants, depth first |
| ScheduledMiniblocks.FindImmediatelyExecutingContractResults | server/provider/scheduledMiniblocks.go:137-159 | the results of all transactions one after the other, all of them among the candidates |
| ScheduledMiniblocks.WithoutEarlierEffects | server/provider/scheduledMiniblocks.go:81-118 | terms (a), (b) and (c) |
| ScheduledMiniblocks.WithEffectsAhead | server/provider/scheduledMiniblocks.go:86-125 | term (d), only when the current block has scheduled transactions |
| ScheduledMiniblocks.CollectValues | server/provider/scheduledMiniblocks.go:127-134 | every value once, in an arbitrary order |
| ScheduledMiniblocks.ListingsArePermutations | server/provider/scheduledMiniblocks.go:127-134 | two listings of the same map are the same up to order |
| ScheduledMiniblocks.GatherEffectiveTransactions | server/provider/scheduledMiniblocks.go:65-135 | refines the term-by-term map, early return included; hands out objects of the current and next block only |
| ScheduledMiniblocks.ListingHashes | server/provider/scheduledMiniblocks.go:65-135 | whatever the order, the returned hashes are the effective hashes |
| ScheduledMiniblocks.DoSimplifyBlockWithScheduledTransactions | server/provider/scheduledMiniblocks.go:47-63 | the block is rewritten in place into two new artificial miniblocks with the effective transactions and all receipts, everything else kept |
| ScheduledMiniblocks.SimplifiedExactly | server/provider/scheduledMiniblocks.go:47-63 | a block stands for another iff it holds a listing of the effective transactions in one artificial miniblock, the receipts in another, and is the same otherwise |
| CacheProtocol.StepKeepsSafe | server/provider/networkProvider.go:208-312 | every step (status read, hit, miss, response, store, eviction, growth, finalisation, rollback) keeps: cached blocks are final and are what the observer holds |
| CacheProtocol.EveryRunIsSafe | server/provider/networkProvider.go:208-312 | safety over every interleaving, also with stale status reads |
| CacheProtocol.ServedIsHeldNow | server/provider/networkProvider.go:208-237 | every block served, and its neighbours, are final and equal to what the observer holds at that moment |
| CacheProtocol.FinalPrefixKeptAlong | server/provider/nodeStatus.go:67-86 | along a run, final blocks stay and stay final |
| CacheProtocol.AnswersNeverChange | server/provider/networkProvider.go:208-263 | the same request is answered with the same blocks for the rest of the run |
| CacheProtocol.CachedIsNotFetchedAgain | server/provider/networkProvider.go:239-263 | along any run, a nonce that has been cached and not evicted since is not asked of the observer again |
| CacheProtocol.ByHashIsSafeExactly | server/provider/networkProvider.go:314-349 | for every block of any safe state: a request by hash leaves the cache safe iff the blocks it gets to cache are final, also where it fails for want of a next block |
| CacheProtocol.UnguardedByHashServesStale | server/provider/networkProvider.go:314-349 | a run without that guard that ends in a request for a final block, answered with the rolled-back one from the cache |
| NetworkProvider.CreateBlockCopy | server/provider/networkProvider.go:265-296 | a new block with new miniblocks, the same contents and the same transaction objects |
| NetworkProvider.NetworkProvider.CacheBlockByNonce | server/provider/networkProvider.go:310-312 | the block is cached and any others may have been evicted, none replaced |
| NetworkProvider.NetworkProvider.DoGetBlockByNonce | server/provider/networkProvider.go:239-263 | on hit and on miss a fresh copy of what the observer holds; the cache stays coherent, and final for final nonces |
| NetworkProvider.NetworkProvider.FetchBlockByNonce | server/provider/networkProvider.go:250-260 | the observer's block is cached and returned; an error leaves the cache alone |
| NetworkProvider.NetworkProvider.GetLatestBlockNonce | server/provider/nodeStatus.go:67-86 | fails iff the highest final nonce is at most 2, else gives the nonce two below it |
| NetworkProvider.NetworkProvider.SimplifyBlockWithScheduledTransactions | server/provider/scheduledMiniblocks.go:9-25 | succeeds iff both neighbours exist; only the copy is rewritten, cached blocks keep their lists |
| NetworkProvider.NetworkProvider.GetBlockByNonce | server/provider/networkProvider.go:208-237 | answers iff online and 1 <= nonce <= highest final - 2, with the simplified block; the cache stays coherent and final |
| NetworkProvider.NetworkProvider.GetBlockByHash | server/provider/networkProvider.go:314-332 | succeeds iff online and the block of that hash has both neighbours; gives it simplified; cached blocks are kept or fresh, and the cache stays final iff the neighbours asked for are, also on failure |
| GenesisProtocol.StepKeepsSafe | server/services/blockService.go:94-120 | the locking invariant of double-checked locking is kept by every step, and only the assignment changes the field |
| GenesisProtocol.EveryRunIsSafe | server/services/blockService.go:94-120 | under any interleaving of callers |
| GenesisProtocol.FetchesNeverOverlap | server/services/blockService.go:94-120 | two callers are never both fetching |
| GenesisProtocol.NeverChangesOnceSet | server/services/blockService.go:94-120 | once set, the field keeps its block |
| GenesisProtocol.AssignedAtMostOnce | server/services/blockService.go:94-120 | the field is assigned at most once in a run |
| GenesisProtocol.AllCallersGetTheSameBlock | server/services/blockService.go:94-120 | all successful calls of a run give the same block, even if fetches would differ |
| GenesisProtocol.ReturnsBlockUnlessItsFetchFailed | server/services/blockService.go:94-120 | in every state of every run, a caller that has returned has failed iff the last fetch of its current call failed, and has the block of the field otherwise |
| GenesisProtocol.ReturnsWhatItFetched | server/services/blockService.go:110-119 | a caller whose last fetch succeeded returns the very block that it fetched |
| GenesisProtocol.FirstFetchesSecondReads | server/services/blockService.go:94-120 | a run in which the first caller fetches and returns the block and the second reads and returns it without fetching |
| GenesisProtocol.LocksAfterEmptyRead | server/services/blockService.go:98-106 | in every run, only a caller that has just found the field empty in its current call takes the write lock |
| GenesisProtocol.SetFieldIsReadAtOnce | server/services/blockService.go:98-104 | while nobody holds the write lock, a caller gets a block that is set in three steps of its own, whoever else reads |
| GenesisProtocol.FailedFetchCanBeRetried | server/services/blockService.go:94-120 | a failed fetch leaves the field empty, and a waiting caller then gets the lock and fetches |
| Events.MultiTransferInvertsFlattening | server/services/transactionEventsController.go:144-196 | topics flattened from any list of transfers and a receiver read back as those transfers in order, with that receiver |
| Events.MultiTransferAcceptsExactlyFlattened | server/services/transactionEventsController.go:169-181 | accepted topics are exactly the flattened ones, i.e. counts of the form 3n + 1; all others, zero included, are rejected |
| Events.FindManyEventsByIdentifier | server/services/transactionEventsController.go:356-370 | all events of one kind, in order |
| Events.ExtractAll | server/services/transactionEventsController.go:198-218 | the loop all extractions share: every event is read, the first malformed one fails all |
| Events.ExtractOneSided | server/services/transactionEventsController.go:198-329 | each event with the exact number of topics is read, any other count fails the whole extraction |
| Events.ExtractDeploys | server/services/transactionEventsController.go:21-45 | at least two topics each; contract from the event's address |
| Events.ExtractWipes | server/services/transactionEventsController.go:242-263 | four topics each; the account from the last |
| Events.ExtractClaims | server/services/transactionEventsController.go:331-354 | two topics each: value and receiver |
| Events.ExtractSingleTransfers | server/services/transactionEventsController.go:151-167 | four topics each, receiver from the last |
| Events.SliceMultiTransfer | server/services/transactionEventsController.go:179-192 | slices of three topics, never out of range |
| Events.ExtractMultiTransfers | server/services/transactionEventsController.go:169-193 | all multi-transfers in order, flattened; one malformed event fails all |
| Events.ExtractEventsESDTOrESDTNFTTransfers | server/services/transactionEventsController.go:144-196 | single transfers, then NFT transfers, then multi-transfers |
| Transformer.FilteredPermutation | server/services/transactionFilters.go:8-54 | the invalid-miniblock filters commute with permuting the block |
| Transformer.SameOperationsInPermutedBlock | server/services/transactionsFeaturesDetector.go:22-57 | a transaction's operations depend on which others are in the block, not on their order |
| Transformer.GeneratedPermutation | server/services/transactionsTransformer.go:47-69 | permuting the transactions permutes the generated Rosetta transactions; success is unchanged |
| Transformer.TransformPermutation | server/services/transactionsTransformer.go:32-86 | the same for the served ones: each operation list is unchanged |
| Transformer.MetadataExactly | server/services/transactionMetadata.go:5-50 | the metadata of a transaction, key by key: which field is under it, and when it is left out |
| Ledger.NetOfNormal | server/services/transactionsTransformer.go:192-298 | a normal transaction nets to minus its fee: value and inner-transaction moves cancel |
| Ledger.NetOfOwn | server/services/transactionsTransformer.go:88-355 | per kind: what the protocol granted minus the fee charged, in the native currency only |
| Ledger.NetOfEvents | server/services/transactionsTransformer.go:384-638 | event operations net to claimed rewards plus mint, create, add-quantity minus burn, wipe, NFT burn of the raw log; a signal error voids all |
| Ledger.TransactionConserves | server/services/transactionsTransformer.go:88-114 | both together, for any transaction and currency |
| Ledger.BlockConserves | server/services/transactionsTransformer.go:32-69 | conservation for a whole block: the net of all generated operations is exactly what was charged, granted, claimed, refunded, minted and burned |
| Postings.OwnOperationsExactly | server/services/transactionsTransformer.go:88-114 | a transaction can be shown iff its kind is known and, where it relays another before Sirius, that one could be parsed |
| Postings.OwnPostings | server/services/transactionsTransformer.go:88-355 | for every account, currency, kind and status, what a transaction itself posts is an explicit table of its fields: who pays, who receives, who bears the fee, what fails |
| Postings.MetadataIsGivenExactly | server/services/transactionsTransformer.go:116-177 | metadata comes with normal and invalid transactions and with contract results that are plain transfers, and with nothing else |
| Postings.EventPostings | server/services/transactionsTransformer.go:384-638 | for every account, currency, kind and status, what the events of a transaction post is the sum of an explicit table over its raw log: kind, address, topics and data; nothing on a signal error |
| Postings.EventsAreReadExactly | server/services/transactionEventsController.go:21-354 | the events of a transaction can be shown iff one signals an error or each has the topics that its kind must have |
| Postings.ReceiptPostings | server/services/transactionsTransformer.go:300-317 | a refund receipt posts its value to its sender |
| Postings.BlockPostings | server/services/transactionsTransformer.go:32-69 | the generated operations of a block post the sum of these tables over its transactions and refund receipts |
| ServedBalances.TxIsShownExactly | server/services/transactionsTransformer.go:88-114 | whether a transaction can be shown, in terms of its kind, inner transaction and log alone |
| ServedBalances.BlockIsShownExactly | server/services/transactionsTransformer.go:47-69 | a block can be shown iff each transaction left after the filters can and each refund receipt has a hash |
| ServedBalances.BlockIsServedExactly | server/services/transactionsTransformer.go:32-86 | it is served iff it can be shown and all accounts of its operations are addresses |
| ServedBalances.ServedEffects | server/services/transactionsTransformer.go:32-86 | the served operations do to each account in each currency what transactions, events and refund receipts say, if the instance serves the account, and nothing otherwise |
| ServedBalances.GeneratedHashes | server/services/transactionsTransformer.go:47-69 | the generated transactions have the hashes of the filtered transactions in order, then those of the refund receipts |
| Ledger.FiltersKeepMeaning | server/services/transactionsTransformer.go:71-85 | through address filter, zero filter, default status and dropping of empty transactions, an observed account keeps its summed effect and others have none |
| Ledger.ServedTransactionsAreProper | server/services/transactionsTransformer.go:71-85 | every served transaction has operations, indexed from 0, non-zero, on observed accounts, with a status, selected from a generated transaction of the same hash |
| Ledger.InstancesPartitionBlock | server/provider/networkProvider.go:351-368 | instances of distinct shards together serve exactly the unfiltered total over the accounts of these shards |
| Observers.ObservedExactly | server/provider/networkProvider.go:351-368 | an account is observed iff it is in the shard, in the projected shard if there is one, and no contract unless these are handled |
| Observers.FinalizeSucceedsExactly | server/services/operations.go:52-69 | the operations of a transaction can be served iff all their accounts are addresses |
| Observers.ContractsAreLeftOut | server/provider/networkProvider.go:351-368 | an instance that does not handle contracts serves per currency exactly what the handling one serves on accounts that are no contracts, and no operation on a contract |
| Observers.ContractsAreLeftOutOfBlock | server/provider/networkProvider.go:351-368 | the same over all served transactions of a block |
| Observers.ProjectionsPartition | server/provider/networkProvider.go:351-368 | the instances of the 256 projected shards serve together what the unprojected one serves on non-empty keys, each operation in the instance of its key's last byte |
| Observers.ProjectionsPartitionBlock | server/provider/networkProvider.go:351-368 | the same over all served transactions of a block |
| Operations.FinalizeKeepsEffects | server/services/operations.go:52-97 | for one transaction: summed effects of observed accounts are kept, others have none left |
| Operations.FinalIsSelection | server/services/operations.go:52-97 | the final list is an order-preserving selection with kind, account and amount kept and indices 0..n-1 |
| Operations.FinalSelectsExactly | server/services/operations.go:52-83 | an operation is kept iff its account is observed and its amount is not zero |
| Operations.FinalIsProper | server/services/operations.go:52-97 | observed account, non-zero amount and a status on every kept operation |
| Operations.InstancesPartitionOperations | server/provider/networkProvider.go:351-368 | per currency, the totals of the instances of distinct shards add up to the unfiltered total over their accounts |
| Operations.ObservedByExactlyOneInstance | server/provider/networkProvider.go:351-368 | an account of these shards is observed by exactly one instance |
| Operations.GenesisGivesBalances | server/services/blockService.go:151-172 | the genesis operations give each observed account its genesis balances and others nothing |
| OperationObjects.IndexOperations | server/services/operations.go:85-89 | indices are overwritten in place with the positions, nothing else changes |
| OperationObjects.SelectObserved | server/services/operations.go:52-67 | exactly the observed operations in order; fails iff some address cannot be converted |
| OperationObjects.FilterOperationsByAddressInPlace | server/services/operations.go:52-69 | the same, re-indexed in place |
| OperationObjects.FilterOutOperationsWithZeroAmountInPlace | server/services/operations.go:71-83 | exactly the operations with an amount, re-indexed in place |
| OperationObjects.ApplyDefaultStatusOnOperations | server/services/operations.go:91-97 | a missing status becomes success, a present one stays |
| OperationObjects.RosettaTransaction.FinalizeInPlace | server/services/transactionsTransformer.go:71-81 | the in-place pipeline refines the one on values, although indices are overwritten twice |
| OperationObjects.CreateGenesisOperationObjects | server/services/blockService.go:151-172 | the loop and the in-place filters refine the genesis operations on values |
| BlockTransformer.FilterOutResultsOfInvalid | server/services/transactionFilters.go:8-30 | drops exactly the contract results whose original transaction is invalid in this block |
| BlockTransformer.FilterOutRelayedAlreadyInvalid | server/services/transactionFilters.go:32-54 | drops exactly the relayed transactions that an invalid one of the same hash doubles |
| BlockTransformer.ExtractTransfersValueOnly | server/services/transactionEventsController.go:47-109 | nothing before Sirius; afterwards exactly the effective events, and failure on a malformed one |
| BlockTransformer.ExtractAllEvents | server/services/transactionsTransformer.go:390-438 | all typed events, and failure iff some kind has a malformed event |
| BlockTransformer.AddOperationsGivenTransactionEvents | server/services/transactionsTransformer.go:384-603 | appends exactly the operations of the events, kind after kind, nothing on a signal error |
| BlockTransformer.NormalTxToRosetta | server/services/transactionsTransformer.go:192-239 | the step-by-step list refines the specified one: transfer, fee, inner operations |
| BlockTransformer.ExtractTransactionMetadata | server/services/transactionMetadata.go:5-50 | entry by entry from the shared object: empty texts and zeros left out, the block nonce not among the entries |
| BlockTransformer.UnsignedTxToRosetta | server/services/transactionsTransformer.go:116-177 | the four cases of a contract result in order, of which only the transfer has metadata |
| BlockTransformer.ConvertTx | server/services/transactionsTransformer.go:88-114 | the four kinds, their metadata and the events; any other kind is an error; independent of the block nonce in the object |
| BlockTransformer.ConvertAll | server/services/transactionsTransformer.go:50-58 | all transactions in order, or failure as soon as one fails |
| BlockTransformer.ConvertRefundReceipts | server/services/transactionsTransformer.go:60-69 | exactly the refund receipts, in order |
| BlockTransformer.FinalizeAll | server/services/transactionsTransformer.go:71-81 | transactions finalized in place do not disturb one another |
| BlockTransformer.FilterOutRosettaTransactionsWithNoOperations | server/services/transactionFilters.go:56-66 | exactly the transactions that still have operations |
| BlockTransformer.StampAndGather | server/services/transactionsTransformer.go:33-45 | writes the block nonce into every shared transaction object and gathers the block's transactions and receipts |
| BlockTransformer.TransformBlockTxs | server/services/transactionsTransformer.go:32-86 | what is emitted, metadata included, depends on what the block lists only, not on block nonces found in shared objects; only those nonces are written |
| Serving.SimplifiedFormsAgree | server/provider/scheduledMiniblocks.go:47-63 | two simplified forms of one block list the same transactions up to order and the same receipts |
| Serving.SimplifiedFormsServeTheSame | server/services/transactionsTransformer.go:32-86 | and are served as the same Rosetta transactions up to order |
| Serving.GetBlockByNonce | server/services/blockService.go:174-186 | from the cache to the Rosetta transactions; cached blocks never change |
| Serving.ServeTwice | server/services/transactionsTransformer.go:36-41 | after the observer has moved on, a second request for a nonce that could be served fails or succeeds like the first and gives the same transactions up to order |
| Serving.ServedTheSameAlongRuns | server/provider/networkProvider.go:208-312 | along any run, with growth, rollback and eviction between, two answers to one request are served as the same Rosetta transactions up to order |
| Serving.Advance | server/provider/networkProvider.go:298-312 | the cache stays coherent when the observer grows, finalises or replaces its non-final tail |
| Encoding.HexRoundTrip | server/services/converters.go:75-79 | hex text decodes to the bytes it encodes |
| Encoding.HexText | server/services/converters.go:75-87 | hex text has even length, hexadecimal digits only, and no separator |
| Encoding.HexDigitsExactly | server/services/converters.go:75-79 | which characters are read as which digit, in both cases; only lower case is written |
| Encoding.HexEncodeAt | server/services/converters.go:75-79 | the two digits of each byte, high before low |
| Encoding.HexDecodeExactly | server/services/converters.go:101-109 | text decodes iff its length is even and all its characters are hexadecimal digits |
| Encoding.EvenLengthKeepsNumber | server/services/converters.go:81-87 | padding makes the length even and keeps the number |
| Encoding.BytesToNatConcat | server/services/converters.go:101-109 | bytes are read most significant first |
| Encoding.DecDigitsConcat | server/services/common.go:40-51 | decimal digits are read most significant first |
| Encoding.NatBytesRoundTrip | server/services/converters.go:89-109 | minimal big-endian bytes give back the number, zero as no bytes |
| Encoding.BytesNatRoundTrip | server/services/converters.go:89-109 | and minimal bytes are given back by their number |
| Encoding.DecRoundTrip | server/services/common.go:40-51 | decimal text of a natural number and of its negation parse back |
| Encoding.MagnitudeOfCanonical | server/services/common.go:65-67 | trimming dashes off a canonical amount gives its magnitude |
| Encoding.MagnitudeExactly | server/services/common.go:65-67 | the magnitude is what is left between the dashes at both ends, and neither begins nor ends with one |
| Encoding.ZeroAmountsExactly | server/services/common.go:40-51 | an amount is zero iff it is empty, or zeros after at most one sign |
| Encoding.AmountHexOfOther | server/services/converters.go:89-99 | the hex text of an amount forgets its sign, and text that is no amount gives none |
| Encoding.AmountHexRoundTrip | server/services/converters.go:89-109 | every natural amount survives the trip through hex text, zero included |
| Encoding.HexTextOfBytes | server/provider/tokenIdentifierParts.go:29-42 | parsing the hex text of nonce bytes as a number gives their big-endian value |
| Encoding.SplitJoin | server/services/constructionService.go:292-298 | splitting cuts exactly at the separators |
| TokenIdentifier.ExtendedIdentifierParsesBackExactly | server/provider/tokenIdentifierParts.go:16-46 | a printed extended identifier gives back identifier and nonce iff the identifier has exactly one dash and the nonce fits into 64 bits |
| TokenIdentifier.FungibleParts | server/provider/tokenIdentifierParts.go:19-27 | ticker and random sequence of an identifier with one dash |
| TokenIdentifier.NonFungibleParts | server/provider/tokenIdentifierParts.go:29-42 | ticker, random sequence and nonce of one with two dashes, refused iff the third part is no 64-bit hexadecimal number |
| TokenIdentifier.OtherDashesAreRefused | server/provider/tokenIdentifierParts.go:45-45 | any other number of dashes is refused |
| TokenIdentifier.WithoutDashIsRefused | server/provider/tokenIdentifierParts.go:45-45 | an identifier without a dash does not parse |
| TokenIdentifier.SecondDashIsMisread | server/provider/tokenIdentifierParts.go:29-42 | an identifier that ends in a dash and hex text loses that part to the nonce |
| TokenIdentifier.MinimalNonceIsRestored | server/services/transactionEvents.go:49-56 | up to eight minimal nonce bytes are restored byte for byte |
| Construction.ConstructionPreprocess | server/services/constructionService.go:34-115 | succeeds iff complete options exist that respect the client's overrides and take the rest from the operations, and then gives these |
| Construction.OptionsStandAlone | server/services/constructionService.go:34-115 | options that come out are complete, and given back as overrides they come out again whatever the operations |
| Construction.OnlyTwoOperationsMatter | server/services/constructionService.go:51-87 | operations after the second change nothing |
| Construction.PreprocessedIntent | server/services/constructionService.go:34-115 | a transfer listed in either order comes out as sender and receiver by position or override, magnitude and currency, unless free data is given for a token |
| Construction.PreprocessErrors | server/services/constructionService.go:34-115 | which of the errors is given, in the order of the checks |
| Construction.ValidateErrors | server/services/constructionOptions.go:43-61 | which of the missing fields is reported |
| Construction.ConstructionMetadata | server/services/constructionService.go:117-174 | gas limit and price suffice for the data put in; the metadata carries accounts, amount and currency: as the amount itself, or as data that parses back to token and amount |
| Construction.MetadataErrors | server/services/constructionService.go:117-174 | which of the errors is given, and exactly when |
| Construction.MetadataCarriesIntent | server/services/constructionService.go:147-153 | the data of a token transfer parses back to token and amount iff the amount is canonical, and its native amount is zero |
| Construction.CustomTransferDataRoundTrip | server/services/constructionService.go:176-180 | for every identifier and natural amount, token transfer data parses back to both |
| Construction.CustomTransferDataLayout | server/services/constructionService.go:176-180 | function name, hex of the token, hex of the amount, in this order |
| Construction.CustomTransferDataExactly | server/services/constructionService.go:292-310 | for any amount text, it parses back to both iff the text is the canonical decimal text of a natural number |
| Construction.IntentRoundTrip | server/services/constructionService.go:34-284 | for a transfer listed in either order, Parse after Preprocess, Metadata and Payloads gives the same accounts, signed amounts, currencies, indices and kinds iff the debit is first, overrides name no other accounts, and it is not native with data starting like a token transfer |
| Construction.IntentRoundTripUpToOrder | server/services/constructionService.go:34-284 | the same up to order iff the sender is the account debited, the receiver the one credited, and it is not read as a token transfer |
| Construction.ParsedFromIntent | server/services/constructionService.go:242-284 | what is parsed is always the debit of the sender and then the credit of the receiver, or nothing of the right kind where it is read as a token transfer |
| Construction.CreditFirstIsReversed | server/services/constructionService.go:51-69 | a native transfer with the credit listed first is built, and parses as the payment in the opposite direction |
| Construction.IntentIsBuiltExactly | server/services/constructionService.go:34-209 | a transfer listed in either order can be built iff online, account known, data only with the native currency, gas limit and price high enough and positive, and a network identifier |
| Construction.BuiltFromIntent | server/services/constructionMetadata.go:48-67 | the built transaction, field by field: accounts, value and data; nonce of the account, chain identifier, version 1; gas limit and gas price as given where positive, else the estimate for its data and the minimum price |
| Construction.BuiltTransactionIsCovered | server/services/constructionService.go:117-209 | the suggested fee is at most the gas limit times the gas price of the built transaction where the estimate for its data does not wrap |
| Construction.TransactionErrors | server/services/constructionMetadata.go:69-90 | which metadata is refused, and with which error |
| Construction.ParseErrors | server/services/constructionService.go:292-310 | token transfer data is refused iff it has not exactly two separators, or token or amount is no hex text, with the error of each case |
| Construction.ConstructAndParse | server/services/constructionService.go:34-284 | the four steps one after the other, for a transfer listed in either order: the transaction built for it with every field, the suggested fee within gas limit times gas price, and both of these round trips |
| Construction.NativeTransferIsMisread | server/services/constructionService.go:286-298 | a native transfer with data "ESDTTransfer" is built and cannot be parsed |
| Construction.FeeBounds | server/services/constructionServiceFee.go:9-45 | unwrapped movement gas times minimum price <= fee while the movement gas fits into 64 bits, and fee <= gas limit times gas price while the estimate does |
| Construction.EstimateExactly | server/services/constructionServiceFee.go:17-23 | the estimate is the whole sum of movement and execution gas, wrapped once into 64 bits |
| Construction.FeeExactly | server/services/constructionServiceFee.go:9-45 | the fee of an accepted request: movement gas at the full price plus, for tokens only, execution gas at the discounted price rounded down |
| Construction.OpenRequestIsCoveredExactly | server/services/constructionServiceFee.go:17-45 | with the gas limit left open, fee <= gas limit times gas price iff the estimate does not wrap or the price is zero |
| Construction.AllCoveredExactly | server/services/constructionServiceFee.go:17-45 | all accepted requests for a currency and data keep the upper bound iff the estimate does not wrap |
| Construction.AllPayForMovementExactly | server/services/constructionServiceFee.go:17-45 | all of them pay for moving the data at the minimum price iff the movement gas fits into 64 bits or that price is zero |
| Construction.WrappedEstimateBreaksUpperBound | server/services/constructionServiceFee.go:17-30 | with a wrapped estimate a request is accepted whose fee exceeds gas limit times gas price |
| Construction.SuggestedFeeIsCovered | server/services/constructionService.go:147-174 | the same bounds for the data, gas limit and gas price put into the metadata |
| Construction.FeeIsMonotone | server/services/constructionServiceFee.go:39-45 | the fee does not fall when data or gas price grow |
| Construction.NativeFeeIsMoveBalanceFee | server/provider/networkProvider.go:457-477 | for native transfers it is the network's move-balance fee of the same unguarded, unrelayed transaction |
| Network.MoveBalanceFeeExactly | server/provider/networkProvider.go:457-477 | minimum, data, guardian and relayer gas added up, wrapped once into 64 bits, at the gas price of the transaction |

## Left out

- ScheduledSpec.EffectiveByHashRefines: requires that nothing below a scheduled transaction hangs below itself, as the source's recursion does not end otherwise (ScheduledSpec.SearchEndsExactlyWhenAcyclic).
- ScheduledMiniblocks.WithoutEarlierEffects: the body of gatherEffectiveTransactions is cut into two methods, the terms in the order of the source.
- ExactlyOnce.ChainServesEachHashOnce: speaks of hashes listed in one block or in two consecutive ones, away from the ends of the chain; the ends would need blocks that are not there.
- Construction.ConstructionMetadata: the account is given by its nonce, or is missing; the options are given as a value, not as a JSON document that may be malformed.
- Construction.FeeBounds: the gas price modifier is an exact real number and the product is rounded down; rounding of 64-bit floating point and its overflow on conversion are not modelled.
- Construction.IntentRoundTrip: amount and currency overrides, where given, are those of the operations; amounts are canonical decimal text; Parse builds its two operations with their indices in place of indexing them afterwards.
- OperationObjects.IndexOperations: requires that no operation object is listed twice; the source creates every operation anew.
- BlockTransformer.TransformBlockTxs: operations are values until a Rosetta transaction is complete and become objects then; of several errors in one block it is not said which is reported.
- NetworkProvider.NetworkProvider.GetBlockByHash: if several blocks shared a hash, the first would be given. The source has no finality check there: without interference the exact condition is CacheProtocol.ByHashIsSafeExactly, and runs in which others interfere are shown to be safe where such requests are for blocks below the highest final one.
- NetworkProvider.NetworkProvider.CacheBlockByNonce: which blocks the least-recently-used policy evicts is left open; any subset may go.
- Serving.ServeTwice: one change of the observer between the requests stands for any number, as changes compose; other clients in between are in Serving.ServedTheSameAlongRuns.
- GenesisProtocol.FailedFetchCanBeRetried: fairness of the mutex, and with it progress of every caller, is not modelled.
- HTTP servers and controllers, command line, logging and URLs: no invariant of their own.
- JSON between the construction steps (options, metadata, unsigned transaction): passed on as values.
- The payload of relayed (V1) transactions: given as an already parsed inner transaction, or as the parse error.
- Network.MoveBalanceFeeExactly: gas is wrapped into 64 bits as in the source; the configured gas parameters are natural numbers of any size.
- Observers.ProjectionsPartition: accounts with an empty public key, on which the source would index out of range, count as not observed under a projected shard.
- Transformer.MetadataExactly: the keys are an enumeration of the key names in the source.
- bech32, hashing of receipts, shard computation and contract detection: parameters of `Network.Network`.
- Amounts of transactions and receipts: natural numbers; empty or signed amount strings are not modelled.
- Block fields that createBlockCopy does not copy, miniblock fields other than those listed in `Chain.Miniblock`: not modelled; miniblock and transaction fields that nothing assigns are constants.
- Conversion to the Rosetta block with its parent link, dispatch on block identifiers: straight-line code.
- Account, network, mempool and offline services, peer counts, oldest eligible epoch: one-branch or finite facts.
- Combine, Hash, Submit and Derive of the construction interface: library calls.
