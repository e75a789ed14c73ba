# Verified model of coin handling in Komodo DeFi Framework

This project models the parts of the `coins` crate (and of the JSON-RPC client in `common`) whose
correctness rests on loops, shared state or protocols, and proves what they promise. Network nodes,
storage and clocks are arbitrary answers; hash functions are parameters. Every operation that changes
state or loops in the source is a method or a class here, proved against a specification. Where that is
a step or recursion on values (the registry operations, the history passes, the windowed searches), lemmas
prove what it amounts to without reference to its form.

| module | subject |
|---|---|
| `HdScan`, `HdScanLaws` | gap-limit discovery of HD wallet addresses (BIP-44, section "Address gap limit"), in 32-bit arithmetic |
| `HdEnable`, `BalanceTotals` | enabling an HD account: listing, scanning, generating up to a minimum, totals per ticker |
| `CoinsRegistry`, `RegistryLaws` | the registry of coins and of the tokens of each platform, serial and interleaved |
| `EthHistory` | the backward and forward block windows of the ETH and ERC20 history loops |
| `SwapSearch` | searching contract logs in windows for a payment and for its spend or refund |
| `NonceProtocol` | nonces of concurrent senders that share an address lock |
| `Confirmations` | waiting for confirmations across chain reorganisations |
| `HtlcPayment`, `HtlcSettlement`, `HtlcCompleteness` | sending, validating, spending and refunding hashed-time-locked payments |
| `JsonRpcBatch` | restoring request order in a JSON-RPC batch (JSON-RPC 2.0, section 6 "Batch") |
| `DexFees` | the DEX fee and its split into fee and burn |
| `TxHistory`, `Pages` | order of the transaction history, and paging of history and channels |
| `ChecksumAddress` | mixed-case checksum addresses (EIP-55, section "Specification") |
| `Endpoints` | endpoint lists rotated to the endpoint that worked |

## Reading guide

Promises that the code keeps only under a condition are stated with that condition, as an equivalence:

- A scan stops after `gap limit + 1` unused ids, one more than its comment says
  (`GapLimitUnusedIdsAreBridged`). It is refused when it reaches a used address at the very last id,
  because the new count would equal the limit (`RefusedIffLastIdIsReached`). So a wider gap limit or more used
  addresses can lose what would have been found: `WiderGapLosesIff`, `MoreUsageLosesIff`, with inputs
  `WiderGapFindsNothing` and `MoreUsageFindsNothing`.
- Enabling an account twice can find more addresses the second time: `EnableAgainKeepsCountIff`, with the
  input `EnableAgainFindsMore`. On a coin with two chains the minimum of one chain is counted against the addresses
  of both: `TwoChainMinimumReachedIff`.
- The token set of a platform is exact only if tokens are added while their platform is registered and are
  not added by registering them as standalone coins: `StepKeepsExactIff`. With interleaving, removing a platform
  can leave a token behind: `TokenIsLeftBehindIff`, with the run `InterleavedRegistrationLosesToken`.
- A removed coin is disabled exactly once only if the caller removes the registered instance:
  `RemovedCoinsAreDisabledOnceIff`.
- The ERC20 history never downloads the blocks whose distance below its first block is a multiple of 10001:
  `Erc20ScansAllButStride`.
- A chunked search differs from one search over the whole range exactly when the spend lies in a later window
  than a refund of the same id: `ChunkedIsOneShotIff`, with the input `RefundHidesLaterSpend`.
- With a configured range of 0 a search that needs more than its first block never ends: `SearchEndsIff`.
- Two transactions can get the same nonce when nodes stay silent: `NoncesIncreaseIff`, with the run
  `SilentBestNodeRepeatsNonce`.
- The nonce query gives up after six silent rounds, although its message says five: `GetAddrNonce`.
- An honest payment can fail validation: `HonestPaymentIsValidIff`, `ExactRewardRefusedIff`. Validation does not
  check the amount of an ERC20 payment without a reward: `AmountIsGuaranteedIff`, with inputs `AnyAmountIsAccepted`.
- The shipped contract interface has no functions for watcher rewards: `ShippedInterfaceCanPayIff`.
- A page number past the end aborts the listing of channels: `ChannelPageIff`.

Assumptions about the environment are hypotheses of the lemmas that need them: a node that had the highest
pending count when the lock was taken answers (`reliable` in `NonceProtocol`; it is sufficient, and
`NoncesIncreaseIff` gives the exact condition without it), pending counts never decrease (`CountsGrow`),
logs come in chain order (`InChainOrder`), and the swap contract compares the commitment it stored with the one it
rebuilds from the arguments (`HtlcSettlement`).

## Model

| member | source | states |
|---|---|---|
| HdScan.FirstQuiet | mm2src/coins/lp_coins.rs:6302-6345 | the count a scan arrives at: the least id at or after the start from which no id of a whole window (gap limit + 1 ids, cut at the limit) is used |
| HdScan.HdAccount.SetKnownAddressesNumber | mm2src/coins/hd_wallet/coin_ops.rs:214-238 | a count at or above the limit, or one the storage refuses, is an error that leaves both chains unchanged |
| HdScan.ScanForNewAddresses | mm2src/coins/lp_coins.rs:6281-6358 | for every usage oracle, start and limits: commits exactly the quiet count and lists ids start..count once each in order, used ones with the balance of their probe and unused ones with an empty one; otherwise reports the right error and changes nothing; no 32-bit step wraps |
| HdScan.UnreachableFails | mm2src/coins/lp_coins.rs:6303-6310 | a failing probe before the scan can stop makes the whole scan fail |
| HdScanLaws.DiscoveredIffNoEmptyRun | mm2src/coins/lp_coins.rs:6302-6345 | a successful scan finds a used id if and only if no run of gap limit + 1 unused ids lies before it |
| HdScanLaws.GapLimitUnusedIdsAreBridged | mm2src/coins/lp_coins.rs:6279-6302 | exactly gap limit unused ids do not end a successful scan, against its comment |
| HdScanLaws.EndsAfterUsedId | mm2src/coins/lp_coins.rs:6348-6354 | a raised count ends after a used id and is followed by a window of unused ones |
| HdScanLaws.ScanIsIdempotent | mm2src/coins/lp_coins.rs:6292-6357 | a second scan finds nothing and keeps the count |
| HdScanLaws.MonotoneInGap | mm2src/coins/lp_coins.rs:6281-6358 | a wider gap limit keeps the committed count from falling if and only if the wider scan succeeds or the narrower one finds nothing; when both succeed the narrower list is a prefix of the wider one |
| HdScanLaws.WiderGapLosesIff | mm2src/coins/hd_wallet/coin_ops.rs:214-238 | with reachable addresses and a working storage, a wider gap limit commits less exactly when it reaches the last id, the narrower one does not, and an id in the first narrow window is used |
| HdScanLaws.WiderGapFindsNothing | mm2src/coins/hd_wallet/coin_ops.rs:221-224 | an input: ids 0 and 2 of 3 used; gap limit 0 commits 1, gap limit 1 is refused |
| HdScanLaws.ContinuingIsStartingWide | mm2src/coins/lp_coins.rs:6292-6357 | a successful narrow scan continued with a wider gap limit ends as the wide scan from the start, in success or error |
| HdScanLaws.MonotoneInUsage | mm2src/coins/lp_coins.rs:6281-6358 | the same for more used addresses |
| HdScanLaws.MoreUsageLosesIff | mm2src/coins/hd_wallet/coin_ops.rs:214-238 | likewise the exact condition under which more used addresses commit less |
| HdScanLaws.MoreUsageFindsNothing | mm2src/coins/hd_wallet/coin_ops.rs:221-224 | an input: of 2 ids, id 0 used commits 1, both used is refused |
| HdScanLaws.RefusedIffLastIdIsReached | mm2src/coins/hd_wallet/coin_ops.rs:221-224 | the scan fails for want of room exactly when no room was left before it, or when it reaches a used last id, every id being reachable |
| BalanceTotals.Add | mm2src/coins/lp_coins.rs:2649-2654 | merging a balance map adds spendable and unspendable amounts of every ticker once, whatever the iteration order |
| BalanceTotals.Total | mm2src/coins/coin_balance.rs:458-463 | the total has the tickers of the listed balances, each with the sum of spendable and of unspendable amounts over the list |
| BalanceTotals.SumIsAdditive | mm2src/coins/lp_coins.rs:2709-2713 | the sum over two lists is the sum of both, for spendable and for unspendable amounts |
| BalanceTotals.SumOfOne | mm2src/coins/lp_coins.rs:2649-2654 | the sum over one address is its own balance |
| BalanceTotals.TotalIsOrderIndependent | mm2src/coins/coin_balance.rs:458-463 | any reordering of the addresses has the same total |
| HdEnable.RequestBalances | mm2src/coins/coin_balance.rs:337-373 | entry i belongs to id i of the request; one failed request fails all |
| HdEnable.GenerateNewAddress | mm2src/coins/hd_wallet/mod.rs:605-628 | takes the next id; the count moves by one or, on an error, not at all |
| HdEnable.GenNewAddresses | mm2src/coins/coin_balance.rs:602-663 | succeeds exactly when the minimum is below the limit and every new count and balance is available, and otherwise reports which of these failed; keeps the given entries and appends the generated ids in order |
| HdEnable.ListAndScan | mm2src/coins/coin_balance.rs:444-452 | the reported ids are 0..known without gap or repetition |
| HdEnable.EnableHdAccount | mm2src/coins/coin_balance.rs:431-473 | success exactly under the stated outcome; then ids 0..known once each with the right balances, known is the committed count, and the total is the sum |
| HdEnable.EnabledAddressIsIndexed | mm2src/coins/coin_balance.rs:515-561 | with the minimum of enabling a wallet, which must be below the limit, the enabled address id is below the known count |
| HdEnable.EnableAgainKeepsCountIff | mm2src/coins/coin_balance.rs:444-456 | enabling again keeps the count if and only if nothing is used in the window after it or no scan is asked for; it does whenever the minimum has not raised the scanned count |
| HdEnable.EnableAgainFindsMore | mm2src/coins/coin_balance.rs:444-456 | an input: only id 2 used, gap limit 0, minimum 2; enabling gives 2, enabling again 3 |
| HdEnable.TwoChainMinimumReachedIff | mm2src/coins/coin_balance.rs:620-627 | with both chains listed, the requested chain reaches the minimum only if the other one is empty or it had reached it before |
| CoinsRegistry.CoinsContext.AddToken | mm2src/coins/lp_coins.rs:4277-4296 | whole new state: refused for a taken ticker, otherwise registered and indexed under its platform if that is indexed |
| CoinsRegistry.CoinsContext.AddPlatformWithTokens | mm2src/coins/lp_coins.rs:4310-4356 | whole new state: refused for an active platform, reactivates a passive one, keeps tokens that are there, replaces the NFT |
| CoinsRegistry.CoinsContext.DisableTokens | mm2src/coins/lp_coins.rs:4372-4382 | every listed ticker is gone and each registered instance was disabled once |
| CoinsRegistry.CoinsContext.RemoveCoin | mm2src/coins/lp_coins.rs:4364-4401 | whole new state for platforms and for tokens |
| CoinsRegistry.CoinsContext.InsertRegistered | mm2src/coins/lp_coins.rs:5339-5345 | first locked section of registering a coin |
| CoinsRegistry.CoinsContext.IndexPlatform | mm2src/coins/lp_coins.rs:5347-5352 | second locked section: a platform gets a token set unless it has one |
| CoinsRegistry.CoinsContext.UpdateIsAvailable | mm2src/coins/lp_coins.rs:4011-4021 | changes the flag of platform coins only |
| RegistryLaws.EveryInterleavingIsSafe | mm2src/coins/lp_coins.rs:4277-5357 | over every interleaving of locked sections, each ticker in a token set is registered and belongs to that platform |
| RegistryLaws.RemovalLeavesOrphans | mm2src/coins/lp_coins.rs:4370-4396 | from any safe registry, removing a platform leaves exactly its registered tokens that its set does not know, and touches no other platform |
| RegistryLaws.OrphansAfterStep | mm2src/coins/lp_coins.rs:4277-5357 | the exact effect of every locked section on those orphans of every platform |
| RegistryLaws.StepAddsNoOrphanIff | mm2src/coins/lp_coins.rs:4277-5357 | a section adds no orphan if and only if it does not newly register a token without a set to put it in |
| RegistryLaws.TokenIsLeftBehindIff | mm2src/coins/lp_coins.rs:4277-5357 | over every interleaving, a removed platform leaves a token behind if and only if some section registered it unindexed and none has removed or indexed it since |
| RegistryLaws.InterleavedRegistrationLosesToken | mm2src/coins/lp_coins.rs:5334-5352 | such a run: a token added between the two sections of its platform's registration outlives the platform |
| RegistryLaws.StepKeepsExactIff | mm2src/coins/lp_coins.rs:4277-5357 | a call keeps all token sets exact if and only if it is an allowed one |
| RegistryLaws.SerialRunIsExact | mm2src/coins/lp_coins.rs:4277-5357 | over serial runs of allowed calls each token set is exactly the registered tokens of its platform |
| RegistryLaws.RemovedPlatformLeavesNoToken | mm2src/coins/lp_coins.rs:4370-4396 | an exact registry has no orphans, so removing a platform takes exactly the coins that live on it |
| RegistryLaws.RemovedCoinsAreDisabledOnceIff | mm2src/coins/lp_coins.rs:4370-4400 | each removed coin is disabled once if and only if the registered instance was passed |
| RegistryLaws.TimesDisabled | mm2src/coins/lp_coins.rs:4370-4400 | how often a removal disables each coin object |
| RegistryLaws.OnlyRemovalsAreTold | mm2src/coins/lp_coins.rs:4383-4390 | only removals disable coins and notify platforms; a registered platform is told exactly once about a token of it that is removed |
| RegistryLaws.PassivePlatformKeepsTokens | mm2src/coins/lp_coins.rs:4322-4354 | a platform made passive and activated again keeps its tokens and gains the new ones |
| RegistryLaws.AvailabilityIsOfPlatforms | mm2src/coins/lp_coins.rs:4001-4021 | making a platform passive hides it from callers, making it available shows it, tokens are not affected, and no other ticker is |
| RegistryLaws.FoundIff | mm2src/coins/lp_coins.rs:5368-5379 | exactly the registered tokens and the registered platforms that are not passive are found |
| RegistryLaws.RefusedCallsChangeNothing | mm2src/coins/lp_coins.rs:4277-5345 | a refused addition, registration or activation changes nothing |
| RegistryLaws.RegisteredCoinIsFound | mm2src/coins/lp_coins.rs:5339-5352 | a registered coin is found, also before it is indexed; indexing gives a platform a set and keeps the sets there are |
| RegistryLaws.AddedTokenIsFound | mm2src/coins/lp_coins.rs:5368-5379 | an added token is found and no other ticker is affected |
| RegistryLaws.ActivatedPlatformIsFound | mm2src/coins/lp_coins.rs:4310-4356 | an activated platform is found, in its old instance if it was passive; registered tokens keep their instance, new ones get the first given, a global NFT replaces the registered one; nothing else changes |
| RegistryLaws.RemovedCoinIsNotFound | mm2src/coins/lp_coins.rs:5368-5379 | after a removal neither the coin nor the indexed tokens of a removed platform are found, and all else is as before |
| EthHistory.HistoryLoop.ProcessHistory | mm2src/coins/eth.rs:3473-3644 | over any passes the persisted history is that of the pass function, also when a request fails half-way |
| EthHistory.EthScansEachBlockOnce | mm2src/coins/eth.rs:3524-3644 | for every run of heights and failures, blocks in (earliest, latest] were downloaded once, block 0 at most once, others not |
| EthHistory.RunExtends | mm2src/coins/eth.rs:3582-3640 | earliest never rises, latest never falls, stored windows are kept |
| EthHistory.LatestIsGreatestHeight | mm2src/coins/eth.rs:3590-3644 | over every run, from a stored history or from none, latest is the greatest height of the passes whose backward window did not fail and whose forward window succeeds, or where the history started |
| EthHistory.StoredIff | mm2src/coins/eth.rs:3497-3591 | a history is first stored by a pass above block 0 that completes its backward window |
| EthHistory.BeginningReachedIff | mm2src/coins/eth.rs:3524-3591 | from a stored history or from none, block 0 is reached exactly when ceil(start / 1001) backward windows (10001 for ERC20) have succeeded |
| EthHistory.CompleteOnceBeginningReached | mm2src/coins/eth.rs:3524-3644 | then every block 1..latest has been downloaded exactly once |
| EthHistory.Erc20ScansAllButStride | mm2src/coins/eth.rs:3879-4001 | ERC20, over every run, from a stored history or from none: no block twice, and exactly the blocks at multiples of 10001 below the first one are missing |
| SwapSearch.FirstOfSplitRange | mm2src/coins/eth.rs:5825-5886 | two windows that share a block see the same first log as their union |
| SwapSearch.WindowsChain | mm2src/coins/eth.rs:5823-5886 | windows chain from the first to the last block, and all but the last have the configured range |
| SwapSearch.WindowsCover | mm2src/coins/eth.rs:5823-5886 | every block of the range is in a window |
| SwapSearch.ChunkedHitIsFirstInWindows | mm2src/coins/eth.rs:5823-5889 | the windowed search reports the first hit in the chained windows |
| SwapSearch.SearchEndsIff | mm2src/coins/eth.rs:5823-5886 | either search ends if and only if the configured range is positive, there is one block to search, or the first block has a hit or a failing request |
| SwapSearch.EndsWithOutcome | mm2src/coins/eth.rs:5823-5889 | window by window, a search with a positive range ends with the stated outcome |
| SwapSearch.SearchForSwapTxSpend | mm2src/coins/eth.rs:5817-5890 | whenever the search ends: the transaction named by the first hit of the windowed search, or what is in the way of it, or a failed log request; the windows asked for are a prefix of the chained windows, all of them when nothing is found |
| SwapSearch.ReportIsReal | mm2src/coins/eth.rs:5834-5886 | a reported spend or refund is the transaction named by such a log with the id in the range; each error is a failed request, a log without a transaction or a transaction that the node lacks |
| SwapSearch.AnsweredUpToHitIff | mm2src/coins/eth.rs:5828-5862 | which log requests matter: the search fails on requests if and only if one of them fails |
| SwapSearch.ChunkedIsOneShotIff | mm2src/coins/eth.rs:5825-5889 | windowed and whole-range search agree exactly unless a spend lies beyond the window of a refund |
| SwapSearch.RefundHidesLaterSpend | mm2src/coins/eth.rs:5825-5889 | an input: refund in block 0 and spend in block 2, which windows of two blocks and the whole range report differently |
| SwapSearch.ChunkSizeDoesNotMatter | mm2src/coins/eth.rs:5825-5889 | with at most one of spend and refund the search reports the whole-range answer unless a request fails, and with an answering node the window size makes no difference |
| SwapSearch.NothingFoundIff | mm2src/coins/eth.rs:5883-5889 | "not found" is reported exactly when no log of either kind has the id in the range and all requests of all windows succeed |
| SwapSearch.CheckIfMyPaymentSent | mm2src/coins/eth.rs:1660-1716 | whenever the search ends: the transaction named by the first payment log of the whole range, nothing if there is none or the node lacks its transaction, or what went wrong; asks for a prefix of the chained windows |
| SwapSearch.PaymentLogsAnsweredIff | mm2src/coins/eth.rs:1685-1712 | which log requests of the payment search matter: those of windows before which there is no log of it |
| NonceProtocol.GetAddrNonce | mm2src/coins/eth.rs:6189-6251 | the first of at most six rounds with an answer decides: its highest count, with exactly the nodes that reported it, at least one, each once |
| NonceProtocol.AnsweringNodesServeSender | mm2src/coins/eth.rs:3089-3116 | after any run, when all nodes answer, a sender that finds the lock free broadcasts with the highest count and gives the lock back once it is counted |
| NonceProtocol.SilentSenderIsFree | mm2src/coins/eth.rs:6195-6249 | an asking sender can give up, and repeat a silent round, without a nonce being used |
| NonceProtocol.StepKeepsInv | mm2src/coins/eth.rs:3089-3116 | every step of any sender or node keeps some node past all broadcast nonces |
| NonceProtocol.NoncesStrictlyIncrease | mm2src/coins/eth.rs:3098-3115 | in every interleaving successful broadcasts carry strictly increasing nonces |
| NonceProtocol.NoncesIncreaseIff | mm2src/coins/eth.rs:3089-3116 | over every run, whichever requests fail, broadcast nonces increase strictly if and only if each round that led to a broadcast got an answer from a node past all earlier broadcasts |
| NonceProtocol.ReliableNodesAreHeard | mm2src/coins/eth.rs:6195-6249 | the assumption on the leading node is sufficient for that |
| NonceProtocol.SilentBestNodeRepeatsNonce | mm2src/coins/eth.rs:6195-6249 | such a run: the only node that is past the first nonce stays silent, and two broadcasts share a nonce |
| Confirmations.TransactionConfirmedAt | mm2src/coins/eth.rs:6105-6151 | polls receipts until one names a block, fails or the deadline passes |
| Confirmations.WaitForBlock | mm2src/coins/eth.rs:6153-6185 | polls heads until the wanted block is reached or the deadline passes |
| Confirmations.WaitForConfirmations | mm2src/coins/eth.rs:2843-2928 | the decided phase of the protocol for every list of answers; the target block is never negative; success and failure come with evidence, and a wait that goes on has not passed its deadline |
| Confirmations.FailureIsReal | mm2src/coins/eth.rs:6107-6155 | a wait fails only at a tick past the deadline or, before it, at a receipt that says reverted |
| Confirmations.FailsNowIff | mm2src/coins/eth.rs:6107-6185 | a running wait fails exactly then; a receipt that is missing, pending or not available never ends it |
| Confirmations.RevertedTransactionFails | mm2src/coins/eth.rs:6132-6147 | a transaction that is reverted when it is first found fails the wait, however long it was missing before |
| Confirmations.ConfirmedOnlyOnEvidence | mm2src/coins/eth.rs:2866-2925 | success needs, before the deadline, two receipts naming the same positive block with a head of at least block + required - 1 between them, and no other block named after that head |
| Confirmations.SettledChainConfirms | mm2src/coins/eth.rs:2866-2925 | on a settled chain five more answers confirm, even after a reorganisation |
| HtlcPayment.ToUnits | mm2src/coins/eth/eth_utils.rs:115-132 | amounts are cut off to whole units; negative and too large ones are errors |
| HtlcPayment.DecimalShift | mm2src/coins/eth/eth_utils.rs:115-132 | one more decimal is the same as ten times the amount |
| HtlcPayment.WholeUnits | mm2src/coins/eth/eth_utils.rs:115-132 | without decimals an amount is cut off at the point, and refused if negative or from 2^256 on |
| HtlcPayment.SendHashTimeLockedPayment | mm2src/coins/eth.rs:4310-4430 | the transaction an honest sender builds, for ETH and ERC20, every reward kind, hash length and contract interface, and which error stops it |
| HtlcPayment.ShippedInterfaceCanPayIff | mm2src/coins/eth/swap_contract_abi.json:1-224 | with the contract interface that is shipped, payments with a watcher reward can be neither built nor validated, all others can |
| HtlcPayment.AddReward | mm2src/coins/eth.rs:4331-4404 | which of value and token amount the overpaid reward goes to |
| HtlcPayment.RewardIsPaidOnce | mm2src/coins/eth.rs:4331-4404 | for every target and flag: a reward is paid in value or in token amount, never both, in which decimals, and where the validator looks for it |
| HtlcPayment.TargetNumbers | mm2src/coins/lp_coins.rs:862-868 | the numbers of the reward targets |
| HtlcPayment.SwapIdSpelledOut | mm2src/coins/eth.rs:1247-1263 | the id hashes the four bytes of the time lock, lowest first, and then the negotiated hash |
| HtlcPayment.PaymentCallSpelledOut | mm2src/coins/eth.rs:4340-4429 | name and tokens of the four payment calls |
| HtlcPayment.PaymentCallIff | mm2src/coins/eth.rs:4340-4429 | a call carries given arguments exactly when it decodes with every token in its place |
| HtlcPayment.CheckReward | mm2src/coins/eth.rs:5536-5559 | the reward arguments pass exactly when target and flag agree and the amount is accepted in 64 bits |
| HtlcPayment.AgreedPaymentIff | mm2src/coins/eth.rs:5495-5710 | being the agreed call is the same as passing every argument check |
| HtlcPayment.AgreedPaymentSpelledOut | mm2src/coins/eth.rs:5495-5710 | a valid payment has the agreed sender, contract, id, receiver, hash, time lock, value and, with a reward, amount; the reward fits 64 bits |
| HtlcPayment.ValidatePayment | mm2src/coins/eth.rs:5437-5716 | accepts exactly a sent payment whose function is in the interface and whose call and value are those of the agreed terms, in the widths of the interface; every error names a defect |
| HtlcSettlement.EncodedHashIsDoubleHash | mm2src/coins/eth.rs:4318-4322 | the encoded hash is ripemd160(sha256(secret)), 20 bytes, for 20-byte and for 32-byte negotiated hashes |
| HtlcSettlement.SpendCallCommits | mm2src/coins/eth.rs:4727-4849 | the spend call rebuilds the commitment of the payment, with its caller and secret |
| HtlcSettlement.SpendAgreesIff | mm2src/coins/eth.rs:4727-4849 | a call is built exactly for secrets of at most 32 bytes; it commits to the payment if and only if the caller is the receiver and knows the secret |
| HtlcSettlement.RefundAgreesIff | mm2src/coins/eth.rs:4851-4973 | the refund call's commitment equals it if and only if the caller paid |
| HtlcSettlement.SpendCallIff | mm2src/coins/eth.rs:4727-4849 | a spend is built exactly for a payment in state Sent, a readable call, a known function and a secret that fits; otherwise the first obstacle is reported |
| HtlcSettlement.RefundCallIff | mm2src/coins/eth.rs:4851-4973 | likewise a refund |
| HtlcSettlement.ShippedInterfaceCanSettleIff | mm2src/coins/eth/swap_contract_abi.json:1-224 | with the shipped interface exactly payments without a watcher reward can be spent and refunded |
| HtlcSettlement.PaymentCanBeSettled | mm2src/coins/eth.rs:4727-4973 | a fresh payment can be spent by its receiver with the secret, and refunded by its payer exactly from the time lock on |
| HtlcSettlement.PaymentSettlesOnce | mm2src/coins/eth.rs:4727-4973 | a fact about the assumed contract: over every sequence of payments, spends and refunds by anyone, a stored payment keeps its commitment and settles at most once, as its state shows |
| HtlcSettlement.SettlementPresentsCommitment | mm2src/coins/eth.rs:4727-4973 | a fact about the assumed contract: whatever settles a payment presents its commitment; a spend reveals the secret, a refund waits for the time lock |
| HtlcSettlement.ValidatedPaymentIsSpendable | mm2src/coins/eth.rs:4727-4849 | a validated payment can be collected by the validator with the secret, for at least the agreed ETH amount |
| HtlcSettlement.AnyAmountIsAccepted | mm2src/coins/eth.rs:5587-5710 | an agreed ERC20 payment without a reward stays agreed with any other amount in its call |
| HtlcSettlement.AmountIsGuaranteedIff | mm2src/coins/eth.rs:5495-5710 | validation guarantees the agreed amount if and only if the coin is ETH, there is a reward, nothing is due, or the hash has a length that no payment meets |
| HtlcCompleteness.HonestPaymentIsValidIff | mm2src/coins/eth.rs:5495-5710 | an honest payment is valid if and only if its encoded hash has 20 bytes, its reward is accepted and its kind is not the disputed one |
| HtlcCompleteness.AcceptedIff | mm2src/coins/watcher_common.rs:93-117 | a reward is accepted exactly if both sides fit 64 bits and it is exact, or at least 90 percent cut off to units |
| HtlcCompleteness.RewardWithinBoundIsAccepted | mm2src/coins/watcher_common.rs:93-117 | a non-exact reward passes while the validator's estimate is at most 5/3 of the payer's, with both cut off to units |
| HtlcCompleteness.RewardAboveBoundIsRefused | mm2src/coins/watcher_common.rs:93-117 | the 5/3 bound is sharp: an estimate two units beyond it is refused |
| HtlcCompleteness.HonestPaymentIsValid | mm2src/coins/eth.rs:2512-2605 | payments with a negotiated hash of 20 or 32 bytes, without a reward or with one of the builders' kinds within the bound, validate |
| HtlcCompleteness.ExactRewardRefusedIff | mm2src/coins/watcher_common.rs:98-103 | an exact reward of ETH or ERC20 passes exactly when it is paid in no asset, is below 2/3 of a unit, or at least 1 and below 4/3 of a unit |
| JsonRpcBatch.TakeOutcomeIff | mm2src/common/jsonrpc_client.rs:447-462 | what removing the answers in request order comes to succeeds exactly for distinct ids that are all answered decodably, with the values in request order |
| JsonRpcBatch.TakeInOrder | mm2src/common/jsonrpc_client.rs:447-462 | returns that outcome, which is otherwise the error of the first request that fails |
| JsonRpcBatch.ErrorIsOfFirstFailure | mm2src/common/jsonrpc_client.rs:447-462 | the error is that of the first request that has no answer left, an answer with an error, or one that does not decode |
| JsonRpcBatch.WrongCountIff | mm2src/common/jsonrpc_client.rs:436-446 | the number of different response ids is wrong exactly if it is not that of the requests |
| JsonRpcBatch.AnswerIsLast | mm2src/common/jsonrpc_client.rs:436 | of several responses with one id the last one counts |
| JsonRpcBatch.SingleIs | mm2src/common/jsonrpc_client.rs:466-483 | an error in a response wins over its result, which must decode otherwise |
| JsonRpcBatch.ProcessTransportBatchResult | mm2src/common/jsonrpc_client.rs:419-464 | Ok exactly when request ids are distinct, the id sets agree and the last answer of each decodes; value i answers request i; otherwise the error is the one of the outcome |
| JsonRpcBatch.BatchRpc | mm2src/common/jsonrpc_client.rs:336-377 | an empty batch needs no request, repeated ids are refused, otherwise as above |
| JsonRpcBatch.OrderOfResponsesDoesNotMatter | mm2src/common/jsonrpc_client.rs:436-463 | with distinct response ids any permutation of the responses gives the same values or the same error |
| JsonRpcBatch.BatchIdsAgree | mm2src/common/jsonrpc_client.rs:149-233 | a fully answered batch has the batch id of its request |
| DexFees.TotalSpendIsRatedAmount | mm2src/coins/lp_coins.rs:4091-4216 | for a taker that is not exempt, in every mode, the total is max(rate * amount, minimum) and the fee part is at least the minimum |
| DexFees.TotalSpendOfTaker | mm2src/coins/lp_coins.rs:4077-4087 | with the taker known: the burn account spends nothing on a transparent coin, and the total is 0 otherwise only if amount and minimum are 0 |
| DexFees.RateIs | mm2src/coins/lp_coins.rs:4113-4129 | 2 percent of the trade, 1 percent if either ticker is the discounted one |
| DexFees.FeeBurnsIff | mm2src/coins/lp_coins.rs:4091-4109 | which coins burn, from which amount on, where to, and that fee and burn add up to the total |
| DexFees.TotalSpendIsMonotone | mm2src/coins/lp_coins.rs:4091-4109 | a larger trade never spends a smaller fee |
| DexFees.BurnAccountSplitIff | mm2src/coins/lp_coins.rs:4160-4186 | burns exactly above the minimum and from four times it, then a quarter; the other burning branch is unreachable |
| DexFees.OpReturnSplit | mm2src/coins/lp_coins.rs:4133-4154 | burns exactly above the minimum; the fee part is max(minimum, 3/4 of the fee) |
| TxHistory.ComparisonIsTotalOrder | mm2src/coins/lp_coins.rs:6165-6179 | the comparison is the strict total order newest first, height 0 first of all, then by id |
| TxHistory.ComparisonSpelledOut | mm2src/coins/lp_coins.rs:6165-6179 | written out: transactions without a block first, then the highest block, then the id that comes first in the dictionary |
| TxHistory.SortedFormIsUnique | mm2src/coins/lp_coins.rs:6118-6125 | a history has at most one sorted form |
| TxHistory.SavedHistoryIsOrderIndependent | mm2src/coins/lp_coins.rs:6118-6146 | the saved history does not depend on the order in which transactions were found |
| Pages.FollowingPagesAreAPrefix | mm2src/coins/lp_coins.rs:5712-5726 | pages that follow on what was received are a prefix of the list, without gap or repetition |
| Pages.PagesByNumberAreAPrefix | mm2src/coins/lp_coins.rs:5720-5726 | so are pages by number |
| Pages.PagesAreTheHistory | mm2src/coins/lp_coins.rs:5712-5726 | enough pages, by id or by number, are the whole history, each transaction once |
| Pages.SkipTakeSpelledOut | mm2src/coins/lp_coins.rs:5727-5727 | a slice skips what comes before it and takes as many as there are up to its length |
| Pages.HistoryPageIsSlice | mm2src/coins/lp_coins.rs:5709-5726 | which slice a page is, for a transaction, a page number or neither, with a limit or the maximum; exactly an unknown transaction is an error |
| Pages.ChannelPageIff | mm2src/coins/lightning.rs:405-425 | a page of channels aborts exactly for a page number past the end, and otherwise is the slice at its offset; an unknown channel starts over |
| Pages.ChannelPagesAreTheChannels | mm2src/coins/lightning.rs:405-425 | following the last channel seen yields all channels once, and none of the pages asked for aborts |
| ChecksumAddress.Checksum | mm2src/coins/eth.rs:7226-7255 | computes the checksum form, and aborts exactly for a letter past position 64 |
| ChecksumAddress.IsValidChecksumAddr | mm2src/coins/eth.rs:7263-7265 | accepts exactly addresses equal to their checksum form |
| ChecksumAddress.FormKeepsBody | mm2src/coins/eth.rs:7226-7255 | only upper and lower case change |
| ChecksumAddress.CapitalIffHashDigitIsHigh | mm2src/coins/eth.rs:7241-7250 | a letter is a capital exactly when its hexadecimal digit of the hash is 8 or more |
| ChecksumAddress.ChecksumIsIdempotent | mm2src/coins/eth.rs:7226-7255 | the checksum form of a checksum form is itself |
| ChecksumAddress.ChecksumIgnoresCaseAndPrefix | mm2src/coins/eth.rs:7226-7255 | neither the case of the input nor its prefix changes the checksum form |
| ChecksumAddress.PrefixIsOptional | mm2src/coins/eth.rs:7226-7255 | an address has the same checksum form with and without its prefix |
| ChecksumAddress.ExactlyOneCasingIsValid | mm2src/coins/eth.rs:7226-7265 | of all casings of a prefixed address exactly the checksum form is accepted |
| Endpoints.Fetch | mm2src/coins/lp_price.rs:219-239 | the first working endpoint is chosen and moved to the front by rotation; a total failure changes nothing |
| Endpoints.AlwaysARotation | mm2src/coins/eth.rs:3291-3340 | over any attempts the list stays a rotation of the original |
| Endpoints.WorkingEndpointStaysFirst | mm2src/coins/eth.rs:3291-3340 | an endpoint that keeps working stays first |

## Left out

- Network, JSON, RLP and ABI bytes, files and databases: requests are answered by parameters, contract calls are token lists.
- Hashing, signatures and key derivation: hash functions are parameters, a derived address is its chain and id, and a failed derivation counts as a failed probe.
- SearchForSwapTxSpend: 64-bit overflow of block numbers is not modelled.
- RewardIsAcceptable: the 10 percent margin is an exact rational; rounding of the source's 64-bit floating point is not modelled.
- HonestTx: 256-bit overflow of the sum of amount and reward is not modelled; converting a too large single amount is.
- ConfirmedOnlyOnEvidence: block numbers are unbounded, so 64-bit overflow of block plus confirmations is not modelled.
- NoncesStrictlyIncrease: covers senders that follow the whole protocol; a sender cancelled while it waits for the increase releases the lock early and is not modelled, nor are callers that only sign.
- LowerAll: lower-casing covers ASCII letters only.
- EnableHdAccount: one chain, with the known and scanned addresses on the external chain; of enabling a whole wallet only the minimum passed on is modelled.
- ChannelPage: takes the channels already sorted and filtered; those two library calls are not modelled.
- SortedForm: stands for the library sort; the history file itself is not modelled.
- Watcher validation of preimages, the V2 swap contracts, NFT payments, Tron, hardware and browser wallets.
- Building transaction details, lightning balances and gas estimation: single folds that would only add easy members.
