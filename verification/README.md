# Verification of the payment network's ledger, client and transaction pool

This project models five parts of the repository in Dafny and proves what they keep.

- **Transaction pool** (`TxLists`, `Accounts`, `AccountContents`, `WaterFilling`, `Equaliser`, `PoolValues`,
  `QueueTrim`, `PoolOperations`, `PoolContents`, `PoolRuns`, `AccountPools`, `Replacements`, `TrimRuns`,
  `LocalTxs`, `TxPool`). The class keeps the maps of the original. Every operation is stated account by account:
  `Of(pool, a)` is the pool as account `a` sees it, and `Accounts` says what an operation does to one account,
  `AccountContents` and `PoolContents` what that means by nonces, prices, costs and the head of the chain. The
  loop that limits pending transactions is proved to compute a water-filling share, the loop that trims the
  queue to remove exactly the excess, accounts heard from last first, and runs of all operations to keep the
  invariant `WellFormed`: each listed transaction is known and in one list, no list is empty, and an account has
  a heartbeat exactly while it has something pending.
- **Block confirmation** (`Blocks`, `PendingEvents`, `EventRuns`, `Reorganisations`). The node is a map from
  hashes to blocks, each one level above its parent. One announcement is a step; the theorems are about runs of
  any announcements in any order: the window, when a block fires again, and when the fired blocks form one
  chain.
- **Contract ABI codec** (`Words`, `Hex`, `ByteBuffers`, `AbiTypes`, `Converters`, `FunctionEncoding`,
  `AbiRoundTrip`, `AbiTheorems`, `AbiAcceptance`, `AbiStandard`, `TypeResolution`, `BaseTypes`). The converters
  and the two-buffer writer work on positioned byte buffers and are proved against `Enc`, `Dec`, `Encoding` and
  `Event`; these are proved to undo each other, pinned to numeric ranges and lengths, and compared with the
  sections "Formal Specification of the Encoding" and "Use of Dynamic Types" of the Contract ABI Specification.
- **Trustline ledger** (`Int256`, `PaymentService`, `LedgerRuns`, `TrustlineValues`, `LedgerRefinement`). The
  contract and the Java object with its aliased reversed views, each against its own specification, and the
  refinement between them.
- **Submission and imports** (`Submission`, `TransactionSubmitter`, `Imports`, `ImportLines`). The client's
  queue, poller and nonces as a state machine, and the depth-first flattening of contract sources.

`Options`, `Collections` and `Text` hold shared definitions. A method that returns `false` or `None` stands for
an exception of the original. Ghost results of methods name intermediate states, levels or choices that a
contract speaks of.

## What the proofs found

- An account with queued but no pending transactions has no heartbeat, so the expiry loop removes its queue at
  the next tick however recent it is (`PoolOperations.ExpiryIsExact`); the comment of the original speaks of
  accounts inactive for a prolonged time.
- Trimming the queue can remove pending transactions (`TrimRuns.TrimTakesPending`), and does exactly if a nonce
  of what it cuts is pending as well (`QueueTrim.TrimLeavesPendingIff`). A batch of replacements brings such
  nonces about (`Replacements.ReplacementBreaksApart`): it happens exactly if promotion leaves something queued
  that was pending (`Accounts.AdvanceKeepsApartIff`, `PoolRuns.BatchKeepsApartIff`), and nothing but
  replacements can do it (`PoolRuns.StepKeepsApart`, `PoolRuns.NoReplacementLeavesApart`).
- Marking a transaction as local again does not prolong its mark: when the first mark gets too old the hash goes
  with it, even in the very call that marks it again (`LocalTxs.HeldIff`, `LocalTxs.MarkedAgain`). Nor are
  entries dropped after two hours, as the comment of the original has it, but at the first mark made after that
  (`LocalTxs.HeldTooLongIff`).
- Removal and demotion leave some transactions known but in neither list, so that they are refused as known when
  offered again (`AccountContents.RemoveStrandsIff`, `AccountContents.DemoteStrandsIff`); promotion never does
  (`AccountContents.AdvanceForgets`).
- The rounds of the pending limiter cut all offenders alike, so up to one slot less than there are offenders can
  stay unused (`WaterFilling.SlackIsSmall`), and only then is the share not max-min fair
  (`WaterFilling.FairShareIsMaxMinIff`, `PoolValues.ThreeSendersLeaveSlack`).
- A walk that does not end on a stored block can dig up confirmed blocks, which then fire again
  (`EventRuns.FiresTwice`). `EventRuns.RefiresIff` says exactly when, whatever has become of the chain: it need
  not import the last block fired if that was reorganised away (`Reorganisations.DeepReorganisationFiresTwice`).
- Unsigned values with the top bit set come back negative (`AbiRoundTrip.RereadIff`), arrays of dynamic
  components are written without offsets, which is the specification's encoding only for such an array of
  variable length that has no elements and is no component itself (`AbiStandard.EncIsStandardIff`), and the
  first dimension of a type is taken as the outermost one (`TypeResolution.FirstDimensionIsOutermost`), which is
  Solidity's reading exactly for dimensions that read the same backwards (`TypeResolution.ReadsAsSolidityIff`).
  Signed integers are read up to twice their range (`AbiAcceptance.DecIff`), and the two sizes of a fixed-point
  type may be followed by any number of x (`BaseTypes.BaseTypeIff`).
- A failed contract creation uses up its nonce (`TransactionSubmitter.Ethereum.NewContract`), and a hash handed
  out while it waits for a receipt displaces the transaction waiting under it (`Submission.DisplacedIff`), whose
  future is never completed unless a poll had already found its receipt (`Submission.DisplacedForGood`).
- The contract and the Java ledger change a record alike on every call (`LedgerRefinement.RunRefines`), except
  for payments to address zero: the contract refuses them, the Java object has no such rule
  (`LedgerRefinement.StepRefines`). They answer alike on every call but these and payments over the limits, for
  which the contract answers `true` and the Java object throws (`LedgerRefinement.AnswersIff`).

## Model

| member | source | states |
|---|---|---|
| `TxPool.TxPool.constructor` | geth-docker/src/main/docker/tx_pool.go:109-130 | a new pool is empty, has no pending state, and is well formed |
| `TxPool.TxPool.EnqueueTx` | geth-docker/src/main/docker/tx_pool.go:352-369 | only the sender's account changes: its queue takes the transaction unless it holds one of that nonce at least as well priced, the one replaced is forgotten and the new one known |
| `TxPool.TxPool.PromoteTx` | geth-docker/src/main/docker/tx_pool.go:379-403 | in a pool with a pending state only the sender's account changes: the pending list takes the transaction, with heartbeat and next nonce, or the transaction is forgotten when a pending one is as good |
| `AccountContents.QueueTakes` | geth-docker/src/main/docker/tx_pool.go:352-369 | a transaction priced no higher than the one queued under its nonce changes nothing; any other is queued and known, the one it replaces is forgotten, and no other nonce changes |
| `AccountContents.PendingTakes` | geth-docker/src/main/docker/tx_pool.go:379-403 | a transaction priced no higher than the pending one of its nonce is forgotten; any other is pending and known, the one it replaces is forgotten, its nonce is the last one used, and the heartbeat is now |
| `AccountContents.EnqueueAllBest` | geth-docker/src/main/docker/tx_pool.go:352-369 | over any transactions queued, the price under a nonce never falls, and each nonce ends with the best of what was there and what was offered |
| `TxPool.TxPool.CleanQueue` | geth-docker/src/main/docker/tx_pool.go:517-533 | queued transactions below the account's nonce or above its balance are forgotten, the others stay, no other account changes |
| `TxPool.TxPool.PromoteQueued` | geth-docker/src/main/docker/tx_pool.go:534-540 | the run of nonces that is ready leaves the queue and goes through promotion one by one; no other account changes |
| `TxPool.TxPool.PromoteAccount` | geth-docker/src/main/docker/tx_pool.go:515-553 | one account is cleaned, promoted and capped at 256 queued, an empty queue is deleted, and the pool stays well formed |
| `TxPool.TxPool.PromoteEveryAccount` | geth-docker/src/main/docker/tx_pool.go:513-553 | every account, whatever the order, ends as promoting it alone says; the counter is the number of transactions still queued |
| `TxPool.TxPool.CountPending` | geth-docker/src/main/docker/tx_pool.go:554-558 | the counter is the sum of the lengths of the pending lists |
| `TxPool.TxPool.PushSpammers` | geth-docker/src/main/docker/tx_pool.go:562-574 | the candidates are the accounts with more than 16 pending that are not spared, and whether one is spared was decided by a transaction it has pending |
| `TxPool.TxPool.CapEach` | geth-docker/src/main/docker/tx_pool.go:591-595 | one round takes the highest transaction from each offender and nothing from anybody else, and the counter stays the sum of lengths |
| `TxPool.TxPool.FallToThreshold` | geth-docker/src/main/docker/tx_pool.go:583-597 | the earlier offenders come down together until they are as short as the new one or the limit is met; who is above and who is at the level stays known |
| `TxPool.TxPool.FallToMinimum` | geth-docker/src/main/docker/tx_pool.go:599-606 | the last rounds end at the fair share |
| `TxPool.TxPool.EqualisePending` | geth-docker/src/main/docker/tx_pool.go:554-608 | the pending lists end within the limit untouched, or as the fair share of the lists found: one level for all accounts not spared, each keeping its lowest nonces |
| `PoolContents.EqualisedIs` | geth-docker/src/main/docker/tx_pool.go:554-608 | lists of at most 4096 in all stay as they are; otherwise the share is fair with 16 guaranteed, each account keeps its lowest nonces up to the level, whoever is spared has more than 16 and a local transaction pending, and whoever has more than 16 and only local ones is spared |
| `WaterFilling.StopsFair` | geth-docker/src/main/docker/tx_pool.go:579-606 | the level where the loops stop is the highest one within the limit, or the guaranteed minimum if even that does not fit |
| `WaterFilling.FairShareUnique` | geth-docker/src/main/docker/tx_pool.go:554-608 | given who is spared there is only one fair level and one fair outcome, so neither the order of the accounts nor ties between offenders matter |
| `WaterFilling.SomebodyIsCutToLevel` | geth-docker/src/main/docker/tx_pool.go:554-608 | in any allocation within the limit that leaves spared accounts alone, some account is cut, and to the fair level or below |
| `WaterFilling.SlackIsSmall` | geth-docker/src/main/docker/tx_pool.go:554-608 | fewer slots stay unused than there are accounts cut to the level |
| `WaterFilling.GainsAreLosses` | geth-docker/src/main/docker/tx_pool.go:554-608 | what any other allocation gives accounts beyond their fair share, added up, is at most what it takes from others below theirs plus the unused slots, which are fewer than the accounts cut |
| `WaterFilling.FairShareIsMaxMinIff` | geth-docker/src/main/docker/tx_pool.go:554-608 | the fair share is max-min fair among all allocations within the limit exactly if it leaves no slot unused, which is so exactly if the guaranteed minimum takes all slots or some level above it takes exactly as many as there are |
| `PoolValues.ThreeSendersLeaveSlack` | geth-docker/src/main/docker/tx_pool.go:554-608 | with the limits of the pool, three senders of 2000 transactions keep 1365 each, one slot stays unused, and the share is not max-min fair |
| `Equaliser.RoundLowers` | geth-docker/src/main/docker/tx_pool.go:589-596 | a round by exactly the accounts that reach the level leaves all lists cut one level lower |
| `TxPool.TxPool.RemoveFromPending` | geth-docker/src/main/docker/tx_pool.go:471-489 | the transaction's nonce and everything behind it leave the pending list; what was behind it is queued again unless nothing is left pending, and the next nonce goes down to it |
| `TxPool.TxPool.RemoveTx` | geth-docker/src/main/docker/tx_pool.go:460-497 | only the sender's account changes, as removal from both lists says; the transaction is no longer known; the pool stays well formed |
| `AccountContents.RemovePendingIs` | geth-docker/src/main/docker/tx_pool.go:471-489 | removal of a known transaction takes its nonce and all behind it off the pending list, takes the heartbeat with the last of it, and leaves the nonce expected next no higher than the one removed |
| `AccountContents.RemoveQueueIs` | geth-docker/src/main/docker/tx_pool.go:471-496 | what was behind is queued again unless beaten there, if something below stays pending; the nonce removed leaves the queue, nothing else in it changes, and only what is removed or outbid is forgotten |
| `AccountContents.RemoveStrandsIff` | geth-docker/src/main/docker/tx_pool.go:460-497 | removal leaves a transaction known but in neither list exactly if it was queued under the nonce removed, or pending behind it with nothing below it or with as good a transaction queued |
| `TxPool.TxPool.RemoveBatch` | geth-docker/src/main/docker/tx_pool.go:449-458 | every account ends as removing its own transactions in order says; none of the batch is known afterwards, even though removals queue others again |
| `TxPool.TxPool.RemoveHighestQueued` | geth-docker/src/main/docker/tx_pool.go:635-641 | the account ends as removing its highest queued transactions downwards one by one says, as many as are to be dropped, whether or not their nonces are pending; no other account changes |
| `TxPool.TxPool.TrimQueue` | geth-docker/src/main/docker/tx_pool.go:609-643 | exactly as many queued transactions as exceed 1024 are removed one by one, from the accounts heard from last first; all of these but at most one have all they queued removed, that one its highest nonces; no other account changes, and the list of accounts never runs out |
| `PoolContents.LastStageIs` | geth-docker/src/main/docker/tx_pool.go:609-643 | a queue of at most 1024 in all is left alone, any other loses exactly what exceeds that, and an account that keeps any of it was not heard from later than one that loses some |
| `QueueTrim.TrimmedWhenApart` | geth-docker/src/main/docker/tx_pool.go:609-643 | when no queued nonce is pending as well, trimming leaves exactly 1024 queued, the lowest nonces of the account cut in part, and every pending list as it was |
| `Accounts.RemovedWhenApart` | geth-docker/src/main/docker/tx_pool.go:627-641 | when no queued nonce of the account is pending, removing queued transactions one by one leaves its k lowest and does nothing else |
| `TxPool.TxPool.DemoteAccount` | geth-docker/src/main/docker/tx_pool.go:656-689 | old and unpayable transactions are forgotten, those behind the lowest unpayable one are queued again, an account left with nothing pending loses its list and heartbeat; the pool stays well formed |
| `TxPool.TxPool.DemoteUnexecutables` | geth-docker/src/main/docker/tx_pool.go:648-690 | every account with something pending is demoted as if alone, and no other account changes |
| `AccountContents.DemotePendingIff` | geth-docker/src/main/docker/tx_pool.go:656-689 | demotion keeps pending exactly the transactions from the nonce at the head of the chain up to the first that cannot be paid for, and the heartbeat exactly if any are left |
| `AccountContents.DemoteQueueIs` | geth-docker/src/main/docker/tx_pool.go:656-681 | what is recent and payable behind that one is queued again unless as good a transaction is queued under its nonce; nothing else in the queue changes, and only what is old, unpayable or outbid is forgotten |
| `PoolContents.DemotesIff` | geth-docker/src/main/docker/tx_pool.go:648-690 | demotion of the pool leaves pending of every account exactly what is recent and payable without a gap at the head of the chain |
| `PoolContents.DemotesLosesNothing` | geth-docker/src/main/docker/tx_pool.go:656-681 | no recent and payable pending transaction is lost: it stays known, and pending or queued unless its nonce is queued at no lower price |
| `TxPool.TxPool.SetPendingNonces` | geth-docker/src/main/docker/tx_pool.go:181-185 | the nonce expected next of every account with something pending is one above its highest pending nonce; the last-element access is in range |
| `TxPool.TxPool.Promotion` | geth-docker/src/main/docker/tx_pool.go:513-644 | the three stages in their order: all accounts advanced, pending lists equalised, queue trimmed if above its limit |
| `TxPool.TxPool.ResetState` | geth-docker/src/main/docker/tx_pool.go:162-189 | the pool is refreshed for the new head of the chain and then promoted, and is well formed |
| `TxPool.TxPool.PromoteExecutables` | geth-docker/src/main/docker/tx_pool.go:502-512 | promotion, preceded by a reset exactly when there is no pending state yet |
| `TxPool.TxPool.Insert` | geth-docker/src/main/docker/tx_pool.go:324-347 | succeeds exactly if the hash is not known and the transaction meets all checks at the head of the chain, and names the first check it fails otherwise; a refused transaction changes nothing, any other is queued |
| `TxPool.TxPool.Add` | geth-docker/src/main/docker/tx_pool.go:406-416 | refuses exactly as inserting does, and then changes nothing; any other transaction is queued and the pool promoted; the whole is one step of a run |
| `TxPool.TxPool.AddBatch` | geth-docker/src/main/docker/tx_pool.go:419-429 | every account ends as offering it its own transactions in order says, then the pool is promoted once |
| `PoolOperations.RefuseIff` | geth-docker/src/main/docker/tx_pool.go:267-334 | a transaction is let in exactly if it is not known, is local or dear enough, its account exists, its nonce is not used up, its cost is not above the balance, and it meets the gas and value checks; otherwise the refusal is the first of these in order |
| `PoolContents.EntersBest` | geth-docker/src/main/docker/tx_pool.go:419-429 | over a batch no price queued under a nonce falls, and whatever was not known and meets all checks ends there unless beaten |
| `TxPool.TxPool.Pending` | geth-docker/src/main/docker/tx_pool.go:240-255 | the result lists exactly the accounts with something pending; each list is in the order of nonces, without a nonce below the account's or a cost above its balance |
| `TxPool.TxPool.Expire` | geth-docker/src/main/docker/tx_pool.go:700-710 | exactly the accounts whose heartbeat is too old, or that have nothing pending, have their queued transactions removed |
| `TxPool.TxPool.SetLocal` | geth-docker/src/main/docker/tx_pool.go:259-263 | the hash is marked now, and marks older than two hours are dropped with their hashes |
| `LocalTxs.TxSet.Add` | geth-docker/src/main/docker/tx_pool.go:762-773 | the ordered marks and the set of hashes after the call are those of marking the hash and then dropping what is too old from the front |
| `LocalTxs.MarkedIff` | geth-docker/src/main/docker/tx_pool.go:755-773 | if time does not go back, a hash is held after a mark exactly if it was held or is the one marked, and no mark kept for it is older than two hours |
| `LocalTxs.HeldIsRecent` | geth-docker/src/main/docker/tx_pool.go:729-773 | in every run in which time does not go back, a hash held was marked within the two hours before the last mark |
| `LocalTxs.HeldIff` | geth-docker/src/main/docker/tx_pool.go:755-773 | in every such run a hash is held at the end exactly if some mark of it is followed by no mark that makes one of its marks too old |
| `LocalTxs.HeldTooLongIff` | geth-docker/src/main/docker/tx_pool.go:755-773 | a hash marked once is still held after its two hours exactly if nothing was marked since they ended |
| `LocalTxs.MarkedAgain` | geth-docker/src/main/docker/tx_pool.go:762-773 | a hash marked again more than two hours after its first mark is not held: dropping the old mark takes the hash with it |
| `Accounts.EnqueueAllKeepsPlaced` | geth-docker/src/main/docker/tx_pool.go:352-369 | queueing transactions that are not pending keeps them known and in one list only, and leaves pending list, nonce and heartbeat alone |
| `Accounts.AdvanceKeepsPlaced` | geth-docker/src/main/docker/tx_pool.go:515-548 | promotion keeps every listed transaction known and in one list only, and leaves at most the cap queued |
| `AccountContents.CleanIs` | geth-docker/src/main/docker/tx_pool.go:517-533 | cleaning keeps queued exactly what is recent and payable and forgets the rest of the queue |
| `AccountContents.ReadyIff` | geth-docker/src/main/docker/tx_pool.go:534-540 | a queued transaction is ready exactly if some queued nonce has been reached and no nonce is missing below its own |
| `AccountContents.AdvancePendingIs` | geth-docker/src/main/docker/tx_pool.go:515-548 | promotion puts the run of recent and payable nonces over the pending list, each where it is better priced, and changes no other nonce |
| `AccountContents.AdvanceNonceIs` | geth-docker/src/main/docker/tx_pool.go:379-403 | the nonce expected next follows the highest nonce promoted and the heartbeat is now, or both stay if none is |
| `AccountContents.AdvanceQueueIs` | geth-docker/src/main/docker/tx_pool.go:517-548 | of what is recent and payable and not promoted the lowest nonces stay queued, up to the cap |
| `AccountContents.AdvanceForgets` | geth-docker/src/main/docker/tx_pool.go:515-548 | promotion forgets exactly what leaves both lists |
| `PoolContents.AdvancedQueueIs` | geth-docker/src/main/docker/tx_pool.go:513-553 | after promotion an account has queued only what is recent and payable and not next, the lowest nonces of it, and less than all of it only if it has 256 |
| `Accounts.RemoveKeepsPlaced` | geth-docker/src/main/docker/tx_pool.go:460-497 | removal keeps every listed transaction known and in one list only, and the removed one is unknown |
| `Accounts.DemoteKeepsPlaced` | geth-docker/src/main/docker/tx_pool.go:656-689 | demotion keeps every listed transaction known and in one list only |
| `Accounts.CapPendingKeepsPlaced` | geth-docker/src/main/docker/tx_pool.go:591-602 | cutting the pending list keeps placement although what is cut off stays known |
| `Accounts.EnqueueCommutes` | geth-docker/src/main/docker/tx_pool.go:676-681 | transactions of different nonces can be queued again in any order |
| `Accounts.StillPendingHas` | geth-docker/src/main/docker/tx_pool.go:656-681 | what stays pending after demotion is recent and payable; what is queued again was pending, is both as well, and no longer pending |
| `AccountContents.DemoteStrandsIff` | geth-docker/src/main/docker/tx_pool.go:676-681 | demotion leaves a transaction known but in neither list exactly if it would be queued again and as good a one is queued under its nonce |
| `Accounts.RemoveForgets` | geth-docker/src/main/docker/tx_pool.go:460-489 | removal makes nothing known and keeps a heartbeat exactly while something is pending |
| `Accounts.RemoveLeavesPendingIff` | geth-docker/src/main/docker/tx_pool.go:471-496 | removing a queued transaction leaves the pending list alone exactly if its nonce is not pending |
| `Accounts.RemoveAllLeavesPendingIff` | geth-docker/src/main/docker/tx_pool.go:627-641 | removing queued transactions one by one leaves the pending list alone exactly if none of their nonces is pending |
| `QueueTrim.TrimLeavesPendingIff` | geth-docker/src/main/docker/tx_pool.go:609-643 | trimming the queue leaves all pending lists alone exactly if no nonce of what is cut from an account is pending there |
| `TrimRuns.TrimTakesPending` | geth-docker/src/main/docker/tx_pool.go:609-643 | a run from the empty pool whose last batch, one transaction of another account, makes the pool trim its queue and takes a pending transaction away |
| `Accounts.RemoveWholeQueue` | geth-docker/src/main/docker/tx_pool.go:627-629 | removing all queued transactions one by one empties the queue and does nothing else, when no queued nonce is pending as well |
| `Accounts.RemoveHighest` | geth-docker/src/main/docker/tx_pool.go:635-641 | when no queued nonce of the account is pending, removing the highest of the k + 1 lowest queued transactions leaves the k lowest |
| `Accounts.PromoteReadyKeepsApartIff` | geth-docker/src/main/docker/tx_pool.go:534-540 | promoting what is ready leaves no queued nonce of the account pending exactly if nothing that stays queued was pending |
| `Accounts.AdvanceKeepsApartIff` | geth-docker/src/main/docker/tx_pool.go:515-548 | so does the whole promotion of an account, exactly if nothing was pending of what cleaning, readiness and the cap leave queued |
| `Accounts.EnqueueKeepsApartIff` | geth-docker/src/main/docker/tx_pool.go:352-369 | queueing keeps queued and pending nonces apart exactly if the nonce queued is not pending |
| `PoolOperations.EqualisedKeepsWellFormed` | geth-docker/src/main/docker/tx_pool.go:554-608 | equalising empties no list and keeps the pool well formed |
| `PoolOperations.DemotedIsExecutable` | geth-docker/src/main/docker/tx_pool.go:648-690 | after demotion every pending list is in order, recent, payable and not empty |
| `PoolOperations.PromotionLimitsPending` | geth-docker/src/main/docker/tx_pool.go:502-608 | every promotion ends with the pending lists within their limit, or with nobody above 16 but accounts that are spared and know a local transaction, also when queued nonces are pending; and it makes nothing known |
| `PoolOperations.PromotionLimits` | geth-docker/src/main/docker/tx_pool.go:502-645 | when no queued nonce is pending as well, a promotion ends within both queue limits and nobody is cut below 16 pending |
| `PoolOperations.PromotionKeepsWellFormed` | geth-docker/src/main/docker/tx_pool.go:502-645 | every stage of a promotion keeps the pool well formed, also when queued nonces are pending |
| `PoolOperations.PromotionKeepsApartIff` | geth-docker/src/main/docker/tx_pool.go:502-645 | a promotion leaves no queued nonce pending if no account has anything pending that promotion leaves queued, and, where both limiters are idle, only if so |
| `PoolOperations.RefreshedIsExecutable` | geth-docker/src/main/docker/tx_pool.go:162-185 | after the first part of a reset everything pending was pending before, is executable at the new head, and lies below the nonce expected next, which is the chain's when nothing is pending |
| `PoolContents.RefreshesIff` | geth-docker/src/main/docker/tx_pool.go:162-185 | it leaves pending exactly what is recent and payable without a gap at the new head |
| `PoolContents.RefreshLosesNothing` | geth-docker/src/main/docker/tx_pool.go:162-185 | no recent and payable pending transaction is lost in it |
| `PoolContents.RefreshedNonce` | geth-docker/src/main/docker/tx_pool.go:177-185 | the nonce expected next is then right above the highest pending nonce, or the one of the chain if nothing is pending |
| `PoolOperations.ResetSettles` | geth-docker/src/main/docker/tx_pool.go:162-189 | a reset of a pool in which no queued nonce is pending ends like that and within the limits, every account with more than 16 pending having a local one if the pending limit is exceeded |
| `PoolOperations.ExpiryIsExact` | geth-docker/src/main/docker/tx_pool.go:700-710 | an account with no queued nonce pending keeps its queue, whole, exactly if it has something pending and a heartbeat in time; its pending list is untouched, and it has a heartbeat exactly while it has something pending |
| `PoolRuns.StepKeepsWellFormed` | geth-docker/src/main/docker/tx_pool.go:162-710 | every operation keeps the pool well formed, whatever is offered, removed or promoted |
| `PoolRuns.WellFormedInEveryRun` | geth-docker/src/main/docker/tx_pool.go:162-710 | in every run of operations from the empty pool, the pool is well formed throughout |
| `PoolRuns.StepKeepsApart` | geth-docker/src/main/docker/tx_pool.go:240-458 | every operation keeps queued and pending nonces apart, and within the limits if it ends with a promotion, provided that promotion leaves nothing of what is offered queued while pending |
| `PoolRuns.BatchKeepsApartIff` | geth-docker/src/main/docker/tx_pool.go:419-429 | where both limiters are idle, a batch keeps queued and pending nonces apart exactly under that condition |
| `PoolRuns.NoReplacementLeavesApart` | geth-docker/src/main/docker/tx_pool.go:406-429 | the condition holds whenever nothing offered has the nonce of a pending transaction |
| `PoolRuns.KnownInEveryRun` | geth-docker/src/main/docker/tx_pool.go:162-710 | in every run the pool knows only transactions that were offered to it and met all checks at that time |
| `PoolRuns.AdmittedThen` | geth-docker/src/main/docker/tx_pool.go:267-347 | at that time they were not below the nonce of the chain, not above the balance, and local or dear enough |
| `PoolRuns.PendingLimitInEveryRun` | geth-docker/src/main/docker/tx_pool.go:162-710 | in every state of every run, replacements or not, the pending limit holds or everybody with more than 16 pending has offered a transaction that was marked as local |
| `PoolRuns.LimitsInEveryRun` | geth-docker/src/main/docker/tx_pool.go:162-710 | in every run in which the condition holds at each operation, queued and pending nonces stay apart and the limits hold whenever an operation ends with a promotion |
| `Replacements.ReplacementBreaksApart` | geth-docker/src/main/docker/tx_pool.go:419-540 | a run of two batches from the empty pool: three transactions become pending, then replacements for the first and the third are offered, and the third nonce ends up both queued and pending |
| `TxLists.CapKeepsLowest` | geth-docker/src/main/docker/tx_pool.go:542-547 | capping keeps the given number of transactions, the ones with the lowest nonces |
| `PendingEvents.PendingEvents.constructor` | ethiso-payment-service/src/main/java/com/std/ie/ethiso/ethereum/PendingEvents.java:62-68 | nothing is stored and nothing fired; the two indexes agree |
| `PendingEvents.PendingEvents.ImportBlocks` | ethiso-payment-service/src/main/java/com/std/ie/ethiso/ethereum/PendingEvents.java:130-163 | the store gains exactly the walk from the announced block, whatever is stored meanwhile; both indexes agree; it terminates |
| `PendingEvents.PendingEvents.FindInChain` | ethiso-payment-service/src/main/java/com/std/ie/ethiso/ethereum/PendingEvents.java:82-93 | the blocks found are exactly those met from a deepest block over stored parents |
| `PendingEvents.PendingEvents.RemoveLevel` | ethiso-payment-service/src/main/java/com/std/ie/ethiso/ethereum/PendingEvents.java:95-120 | the blocks of a level leave the store and exactly those in the chain fire, each once |
| `PendingEvents.PendingEvents.RemoveBelow` | ethiso-payment-service/src/main/java/com/std/ie/ethiso/ethereum/PendingEvents.java:95-123 | everything below the boundary leaves both indexes; exactly the blocks in the chain fire, in ascending order of number |
| `PendingEvents.PendingEvents.NewBlock` | ethiso-payment-service/src/main/java/com/std/ie/ethiso/ethereum/PendingEvents.java:70-128 | one announcement is one step: import, then confirmation against the deepest level; the indexes agree afterwards |
| `EventRuns.WalkShape` | ethiso-payment-service/src/main/java/com/std/ie/ethiso/ethereum/PendingEvents.java:141-160 | a walk is a run of ancestors of at most count + 7 blocks that meets no stored parent before its end, and ends at genesis, on a stored parent or at its length limit |
| `EventRuns.ImportsIff` | ethiso-payment-service/src/main/java/com/std/ie/ethiso/ethereum/PendingEvents.java:141-160 | the blocks imported are exactly the ancestors of the announced block down to the bottom of the walk |
| `EventRuns.StoredPathIff` | ethiso-payment-service/src/main/java/com/std/ie/ethiso/ethereum/PendingEvents.java:86-92 | following stored parents meets exactly the ancestors without a gap above them |
| `EventRuns.ImportCloses` | ethiso-payment-service/src/main/java/com/std/ie/ethiso/ethereum/PendingEvents.java:130-160 | after an import every block above the lowest level of the window has its parent stored |
| `EventRuns.FiredIsAncestor` | ethiso-payment-service/src/main/java/com/std/ie/ethiso/ethereum/PendingEvents.java:82-120 | a fired block is a linked ancestor of a deepest block at least count levels up |
| `EventRuns.LastFired` | ethiso-payment-service/src/main/java/com/std/ie/ethiso/ethereum/PendingEvents.java:76-120 | if anything fires, the last block fired is the one right below the window |
| `EventRuns.StepKeepsHistory` | ethiso-payment-service/src/main/java/com/std/ie/ethiso/ethereum/PendingEvents.java:70-128 | an announcement keeps the window and the record that the last block fired is the one right below it |
| `EventRuns.RefiresIff` | ethiso-payment-service/src/main/java/com/std/ie/ethiso/ethereum/PendingEvents.java:70-160 | through reorganisations of any depth, some fired block fires again exactly if the walk digs one up: below some deepest block it imports the ancestor at the level of the block fired last and, there or further down, an ancestor that was fired |
| `EventRuns.RefiresDescending` | ethiso-payment-service/src/main/java/com/std/ie/ethiso/ethereum/PendingEvents.java:70-160 | where the deepest blocks descend from the last block fired, that is so exactly if the walk imports this block |
| `EventRuns.FiresAbove` | ethiso-payment-service/src/main/java/com/std/ie/ethiso/ethereum/PendingEvents.java:70-128 | if the walk ends on a stored parent, all that fires lies above all that fired before |
| `EventRuns.WindowInEveryRun` | ethiso-payment-service/src/main/java/com/std/ie/ethiso/ethereum/PendingEvents.java:70-163 | after every announcement of every run with at least one confirmation the stored blocks are the node's own, lie in the last count levels, are linked above the lowest of them, and none of them was fired |
| `EventRuns.AtMostOnceIff` | ethiso-payment-service/src/main/java/com/std/ie/ethiso/ethereum/PendingEvents.java:70-163 | in every run, through reorganisations of any depth, no block fires twice exactly if no walk digs up a fired block |
| `EventRuns.AtMostOnceDescending` | ethiso-payment-service/src/main/java/com/std/ie/ethiso/ethereum/PendingEvents.java:70-163 | in a run in which the deepest blocks always descend from the last block fired, no block fires twice exactly if no walk imports the last block fired |
| `EventRuns.AtMostOnceInOrder` | ethiso-payment-service/src/main/java/com/std/ie/ethiso/ethereum/PendingEvents.java:70-163 | if every walk after the first ends on a stored parent, no block fires twice, numbers never go down, and each call fires strictly above all earlier calls |
| `EventRuns.JoinsContinues` | ethiso-payment-service/src/main/java/com/std/ie/ethiso/ethereum/PendingEvents.java:70-163 | what an announcement that joins fires continues the chain fired so far: the announced block opens a new level, comes from the block fired last, and its walk ends on a stored parent or right above that block |
| `EventRuns.NotJoinsBreaks` | ethiso-payment-service/src/main/java/com/std/ie/ethiso/ethereum/PendingEvents.java:70-163 | any other announcement fires something that does not continue the chain |
| `EventRuns.FinalisedChainIff` | ethiso-payment-service/src/main/java/com/std/ie/ethiso/ethereum/PendingEvents.java:70-163 | in every run, through forks and reorganisations of any depth, the blocks fired form one parent-linked chain exactly if every announcement joins |
| `EventRuns.JoinsDescending` | ethiso-payment-service/src/main/java/com/std/ie/ethiso/ethereum/PendingEvents.java:70-163 | where the deepest blocks descend from the last block fired, whether an announcement joins is a matter of where its walk ends alone |
| `EventRuns.FiredIsConfirmed` | ethiso-payment-service/src/main/java/com/std/ie/ethiso/ethereum/PendingEvents.java:76-120 | every block fired has count or more levels above it at that time |
| `EventRuns.ImportBound` | ethiso-payment-service/src/main/java/com/std/ie/ethiso/ethereum/PendingEvents.java:141-160 | one announcement imports at most count + 7 blocks; with no confirmations asked for the store ends empty |
| `EventRuns.FiresTwice` | ethiso-payment-service/src/main/java/com/std/ie/ethiso/ethereum/PendingEvents.java:153-160 | a block fires twice: a repeated announcement digs up its confirmed parent |
| `Reorganisations.DeepReorganisationFiresTwice` | ethiso-payment-service/src/main/java/com/std/ie/ethiso/ethereum/PendingEvents.java:70-160 | a run in which a longer branch replaces confirmed blocks: the block they share fires again although the walk does not import the block fired last |
| `Converters.LpadTo32` | ethiso-payment-service/src/main/java/com/std/ie/ethiso/ethereum/types/TypeConverterUtils.java:44-69 | writes the word of leading pad bytes and the bytes without their leading zeros; refuses what is longer or does not fit |
| `Converters.RpadZeroTo32` | ethiso-payment-service/src/main/java/com/std/ie/ethiso/ethereum/types/TypeConverterUtils.java:40-59 | writes the bytes and zeros up to a whole number of words; refuses what does not fit |
| `Converters.UIntWord` | ethiso-payment-service/src/main/java/com/std/ie/ethiso/ethereum/types/UIntTypeConverter.java:36-43 | an unsigned number within its size is written as its 32-byte word, even when its byte array has a 33rd, zero byte |
| `Converters.IntWord` | ethiso-payment-service/src/main/java/com/std/ie/ethiso/ethereum/types/IntTypeConverter.java:36-47 | a negative number within its size is written as its 32-byte two's complement |
| `Converters.SerialiseUInt` | ethiso-payment-service/src/main/java/com/std/ie/ethiso/ethereum/types/UIntTypeConverter.java:36-43 | writes the word exactly when the number is not negative and fits its size |
| `Converters.SerialiseInt` | ethiso-payment-service/src/main/java/com/std/ie/ethiso/ethereum/types/IntTypeConverter.java:36-47 | writes the word exactly when the number and its sign fit the size |
| `Converters.DeserialiseUInt` | ethiso-payment-service/src/main/java/com/std/ie/ethiso/ethereum/types/UIntTypeConverter.java:45-58 | reads a word as a signed number and refuses one that is too long |
| `Converters.DeserialiseInt` | ethiso-payment-service/src/main/java/com/std/ie/ethiso/ethereum/types/IntTypeConverter.java:49-62 | reads a word as a signed number and refuses one that is too long |
| `Converters.ReadPadded` | ethiso-payment-service/src/main/java/com/std/ie/ethiso/ethereum/types/StaticBytesTypeConverter.java:44-62 | reads the bytes and their padding and refuses padding that is not zero |
| `Converters.SerialiseScalar` | ethiso-payment-service/src/main/java/com/std/ie/ethiso/ethereum/types/FixedTypeConverter.java:43-52 | every type but arrays writes what its converter promises or refuses the value |
| `Converters.DeserialiseScalar` | ethiso-payment-service/src/main/java/com/std/ie/ethiso/ethereum/types/DynamicBytesTypeConverter.java:39-61 | every type but arrays reads what its converter promises, behind its padding |
| `Converters.SerialiseAll` | ethiso-payment-service/src/main/java/com/std/ie/ethiso/ethereum/types/DynamicArrayTypeConverter.java:39-46 | the components are written one behind the other, up to the first that is refused |
| `Converters.SerialiseType` | ethiso-payment-service/src/main/java/com/std/ie/ethiso/ethereum/types/StaticArrayTypeConverter.java:39-49 | any type, to any depth of arrays, writes its encoding or refuses the value |
| `Converters.DeserialiseAll` | ethiso-payment-service/src/main/java/com/std/ie/ethiso/ethereum/types/DynamicArrayTypeConverter.java:48-61 | as many components are read as announced, one behind the other |
| `Converters.DeserialiseType` | ethiso-payment-service/src/main/java/com/std/ie/ethiso/ethereum/types/StaticArrayTypeConverter.java:51-62 | any type, to any depth of arrays, reads what decoding from that position gives |
| `FunctionEncoding.EncodeBuffer` | ethiso-payment-service/src/main/java/com/std/ie/ethiso/ethereum/FunctionEncoding.java:160-175 | the text is the bytes put, two hexadecimal digits each |
| `FunctionEncoding.DecodeBuffer` | ethiso-payment-service/src/main/java/com/std/ie/ethiso/ethereum/FunctionEncoding.java:177-193 | a text that starts with 0x and has hexadecimal digits behind it is read into its bytes, any other is refused |
| `FunctionEncoding.EncodeArgument` | ethiso-payment-service/src/main/java/com/std/ie/ethiso/ethereum/FunctionEncoding.java:87-97 | a dynamic argument leaves its offset in the head and itself in the tail, any other stays in the head; it succeeds exactly if both have room |
| `FunctionEncoding.DecodeParameter` | ethiso-payment-service/src/main/java/com/std/ie/ethiso/ethereum/FunctionEncoding.java:137-151 | a dynamic parameter is read behind its offset and reading resumes at the next slot, which fails exactly if the offset lies before the position reached or beyond the data |
| `FunctionEncoding.FunctionEncoding.constructor` | ethiso-payment-service/src/main/java/com/std/ie/ethiso/ethereum/FunctionEncoding.java:47-66 | the parameters are split into indexed and other ones in order, and the head size is the sum of the head sizes of the latter |
| `FunctionEncoding.IndexedAt` | ethiso-payment-service/src/main/java/com/std/ie/ethiso/ethereum/FunctionEncoding.java:47-66 | each parameter comes right behind those of its kind in front of it |
| `FunctionEncoding.FunctionEncoding.Encode` | ethiso-payment-service/src/main/java/com/std/ie/ethiso/ethereum/FunctionEncoding.java:75-100 | the text is the selector and the two buffers in hexadecimal; it is refused exactly if an argument is, their number is wrong or a buffer overflows |
| `FunctionEncoding.FunctionEncoding.DecodeEvent` | ethiso-payment-service/src/main/java/com/std/ie/ethiso/ethereum/FunctionEncoding.java:118-154 | indexed parameters are read from their topics and the others from the data; it fails exactly if one of them cannot be read |
| `Hex.HexBack` | ethiso-payment-service/src/main/java/com/std/ie/ethiso/ethereum/FunctionEncoding.java:160-193 | reading the hexadecimal text of bytes gives them back |
| `Hex.HexAt` | ethiso-payment-service/src/main/java/com/std/ie/ethiso/ethereum/FunctionEncoding.java:160-175 | each byte is written as its high half and then its low half, in lower case |
| `Hex.FromHexIff` | ethiso-payment-service/src/main/java/com/std/ie/ethiso/ethereum/FunctionEncoding.java:177-193 | a text is read into the bytes its pairs of characters denote, a sign in front of a digit included and an odd last character ignored, and refused if a pair denotes none |
| `AbiRoundTrip.ReadsBack` | ethiso-payment-service/src/main/java/com/std/ie/ethiso/ethereum/types/TypeConverterUtils.java:32-69 | for every supported type, what was written is read back as the reread value wherever it stands, and reading stops right behind it |
| `AbiRoundTrip.RereadIff` | ethiso-payment-service/src/main/java/com/std/ie/ethiso/ethereum/types/UIntTypeConverter.java:36-58 | a value reads back unchanged exactly if none of its unsigned words has the top bit set |
| `AbiRoundTrip.EncSize` | ethiso-payment-service/src/main/java/com/std/ie/ethiso/ethereum/types/StaticArrayTypeConverter.java:74-76 | what is written is a whole number of words and not less than the size reserved in the head |
| `AbiTheorems.EncodingIsLaidOut` | ethiso-payment-service/src/main/java/com/std/ie/ethiso/ethereum/FunctionEncoding.java:75-100 | for every accepted argument list the head is filled exactly, the offsets are multiples of 32, rise from the end of the head, and their segments partition the tail |
| `AbiTheorems.LayoutReadsBack` | ethiso-payment-service/src/main/java/com/std/ie/ethiso/ethereum/FunctionEncoding.java:137-151 | whatever is laid out so is read back, slot by slot |
| `AbiTheorems.EventRoundTrip` | ethiso-payment-service/src/main/java/com/std/ie/ethiso/ethereum/FunctionEncoding.java:75-154 | decoding an event whose data and topics were encoded gives the reread arguments, indexed ones first |
| `AbiTheorems.RoundTripIff` | ethiso-payment-service/src/main/java/com/std/ie/ethiso/ethereum/FunctionEncoding.java:75-154 | decoding an encoded event gives the arguments themselves exactly if each of them, indexed or not, reads back unchanged |
| `AbiAcceptance.EncAcceptsIff` | ethiso-payment-service/src/main/java/com/std/ie/ethiso/ethereum/types/UIntTypeConverter.java:36-43 | a value of any supported type can be written exactly if it is in range: integers by their size and sign, decimals that times the power of two are whole, byte strings and arrays of the announced length or of less than 2^31 |
| `AbiAcceptance.EncTakes` | ethiso-payment-service/src/main/java/com/std/ie/ethiso/ethereum/types/DynamicBytesTypeConverter.java:39-46 | what a value takes is a word, or the padded bytes behind their length, or its elements behind their number |
| `AbiAcceptance.EncodingAcceptsIff` | ethiso-payment-service/src/main/java/com/std/ie/ethiso/ethereum/FunctionEncoding.java:75-100 | arguments can be encoded exactly if there is one in range for each parameter, what stays in the head fits the size reserved, the tail takes at most 1024 bytes and every offset is below 2^31 |
| `AbiAcceptance.DecIff` | ethiso-payment-service/src/main/java/com/std/ie/ethiso/ethereum/types/IntTypeConverter.java:49-62 | reading any supported type from any position of any bytes gives a value and an end exactly if the value stands there: its word in range, its bytes with zero padding, its elements one behind the other |
| `AbiAcceptance.PayloadIff` | ethiso-payment-service/src/main/java/com/std/ie/ethiso/ethereum/FunctionEncoding.java:177-193 | a text that does not start with 0x is refused, any other is read as the bytes its pairs of characters denote |
| `AbiAcceptance.EventIff` | ethiso-payment-service/src/main/java/com/std/ie/ethiso/ethereum/FunctionEncoding.java:118-154 | any topics and data are decoded into values exactly if the indexed ones stand in their topics and the others in the data, dynamic ones behind an offset that lies behind their slot and within the data |
| `AbiStandard.WordIsStandard` | ethiso-payment-service/src/main/java/com/std/ie/ethiso/ethereum/types/IntTypeConverter.java:36-47 | the word written is the big-endian two's complement of the specification, byte by byte |
| `AbiStandard.EncIsStandard` | ethiso-payment-service/src/main/java/com/std/ie/ethiso/ethereum/types/DynamicArrayTypeConverter.java:39-46 | integers, booleans, fixed-length and dynamic bytes, and arrays of static components are encoded as the specification says |
| `AbiStandard.EncodingIsStandard` | ethiso-payment-service/src/main/java/com/std/ie/ethiso/ethereum/FunctionEncoding.java:75-100 | the two buffers, one after the other, are the head and tail of the specification's tuple encoding |
| `AbiStandard.EncIsStandardIff` | ethiso-payment-service/src/main/java/com/std/ie/ethiso/ethereum/types/DynamicArrayTypeConverter.java:39-46 | to any depth of arrays, a value of a type without fixed-point parts is encoded as specified exactly if its type has no array of dynamic components, or is itself an array of variable length and has no elements |
| `AbiStandard.EncodingIsStandardIff` | ethiso-payment-service/src/main/java/com/std/ie/ethiso/ethereum/FunctionEncoding.java:75-100 | an accepted argument list of such types is encoded as the specification encodes the tuple exactly if each argument is encoded as specified |
| `TypeResolution.AtMostOneSupports` | ethiso-payment-service/src/main/java/com/std/ie/ethiso/ethereum/types/TypeConverterManagerImpl.java:50-68 | no type text is supported by two factories, nor by any when asking one of them goes wrong |
| `TypeResolution.OrderIsIrrelevant` | ethiso-payment-service/src/main/java/com/std/ie/ethiso/ethereum/types/TypeConverterManagerImpl.java:50-78 | the converter of a type does not depend on the order in which the factories were found |
| `TypeResolution.StaticComponent` | ethiso-payment-service/src/main/java/com/std/ie/ethiso/ethereum/types/StaticArrayTypeConverterFactory.java:63-68 | the text of the component type is strictly shorter |
| `TypeResolution.DynamicComponent` | ethiso-payment-service/src/main/java/com/std/ie/ethiso/ethereum/types/DynamicArrayTypeConverterFactory.java:44-48 | the text of the component type is strictly shorter |
| `BaseTypes.BaseTypeIff` | ethiso-payment-service/src/main/java/com/std/ie/ethiso/ethereum/types/TypeConverterManagerImpl.java:50-68 | with all factories in any order, a text without brackets gives a converter exactly if it names it: address, bool, string, bytes, bytes with a numeral from 1 to 32, uint or int with the numeral of a size or none for 256, fixed or ufixed with two sizes of at most 256 bits together or none for 128 and 128 |
| `BaseTypes.UIntOf` | ethiso-payment-service/src/main/java/com/std/ie/ethiso/ethereum/types/UIntTypeConverterFactory.java:30-60 | "uint" and the decimal digits of a number give the converter of that size if it is divisible by eight and from 8 to 256, and nothing otherwise |
| `BaseTypes.DimensionIff` | ethiso-payment-service/src/main/java/com/std/ie/ethiso/ethereum/types/StaticArrayTypeConverterFactory.java:46-61 | between two brackets stands nothing, or the numeral of a size from one on, possibly with a plus sign, or no size |
| `TypeResolution.FirstDimensionIsOutermost` | ethiso-payment-service/src/main/java/com/std/ie/ethiso/ethereum/types/StaticArrayTypeConverterFactory.java:46-68 | a base type with any list of dimensions is read with the first dimension outermost, and not at all if a size is malformed |
| `TypeResolution.ReadsAsSolidityIff` | ethiso-payment-service/src/main/java/com/std/ie/ethiso/ethereum/types/StaticArrayTypeConverterFactory.java:46-68 | it is read as Solidity reads it, the last dimension outermost, exactly if the sizes read the same backwards, or the base or a size is not understood |
| `TypeResolution.TypeConverterManager.GetTypeConverter` | ethiso-payment-service/src/main/java/com/std/ie/ethiso/ethereum/types/TypeConverterManagerImpl.java:34-48 | the result is that of resolving afresh, the cache always agrees with that and forgets nothing |
| `TypeResolution.TypeConverterManager.NewTypeConverter` | ethiso-payment-service/src/main/java/com/std/ie/ethiso/ethereum/types/TypeConverterManagerImpl.java:50-68 | the factories are asked in turn until one supports the type |
| `PaymentService.PaymentService.SetLimit` | ethiso-api/src/main/contracts/PaymentService.sol:60-83 | the storage and the events after the call are those of the ledger step, and so is the answer |
| `PaymentService.PaymentService.SetAllow` | ethiso-api/src/main/contracts/PaymentService.sol:97-117 | the storage and the events after the call are those of the ledger step, and so is the answer |
| `PaymentService.PaymentService.SendPayment` | ethiso-api/src/main/contracts/PaymentService.sol:160-205 | the storage and the events after the call are those of the ledger step with 256-bit arithmetic, and so is the answer |
| `PaymentService.PaymentService.GetAmountOwedTo` | ethiso-api/src/main/contracts/PaymentService.sol:208-216 | the answer is what the caller owes, whichever of the two parties it is |
| `PaymentService.PaymentService.GetLimit` | ethiso-api/src/main/contracts/PaymentService.sol:86-94 | the answer is the limit of the asked direction, whichever party asks |
| `PaymentService.PaymentService.GetAllow` | ethiso-api/src/main/contracts/PaymentService.sol:120-128 | the answer is the allowance of the asked direction, whichever party asks |
| `PaymentService.SetLimitByDirection` | ethiso-api/src/main/contracts/PaymentService.sol:60-83 | exactly one direction of one pair and currency gets the new limit; every other direction keeps its terms and debts |
| `PaymentService.SetAllowByDirection` | ethiso-api/src/main/contracts/PaymentService.sol:97-117 | exactly one direction of one pair and currency gets the new allowance; every other direction keeps its terms and debts |
| `PaymentService.PaymentByDirection` | ethiso-api/src/main/contracts/PaymentService.sol:160-205 | a payment raises the payer's debt by the amount exactly if that stays within the cap of its direction, lowers the payee's alike, and otherwise changes no debt |
| `PaymentService.MachineAgreesIff` | ethiso-api/src/main/contracts/PaymentService.sol:177-202 | 256-bit and unbounded execution of a call agree exactly if its new balance stays inside the 256-bit range |
| `PaymentService.PaymentTells` | ethiso-api/src/main/contracts/PaymentService.sol:160-205 | a payment announces itself, and success last, exactly if it is carried out; it answers true exactly then or if it tells that the limits are exceeded |
| `PaymentService.PaymentCode` | ethiso-api/src/main/contracts/PaymentService.sol:160-205 | the last message of a payment carries 1 for address zero, 2 for the sender itself, 3 for a negative amount, 4 if the new debt exceeds the limit or the allowance, in this order, and 0 if it is made |
| `LedgerRuns.MachineRunAgreesIff` | ethiso-api/src/main/contracts/PaymentService.sol:60-205 | over any run from a ledger with terms that are not negative, 256-bit and unbounded execution agree exactly if no payment has a new debt that reaches 2^255 |
| `LedgerRuns.DeployedAgreesIff` | ethiso-api/src/main/contracts/PaymentService.sol:60-205 | so they do from the deployed contract on |
| `LedgerRuns.NoWrapAround` | ethiso-api/src/main/contracts/PaymentService.sol:60-205 | if all amounts of a run are below 2^254, 256-bit and unbounded execution agree step for step and every balance stays strictly inside that bound |
| `LedgerRuns.DebtBound` | ethiso-api/src/main/contracts/PaymentService.sol:160-205 | in every run a party's debt never exceeds the largest cap ever in force for that direction, or what it owed at the start |
| `LedgerRuns.DeployedDebtBound` | ethiso-api/src/main/contracts/PaymentService.sol:160-205 | from the deployed contract on, with amounts below 2^254, the machine keeps that bound |
| `LedgerRuns.BalancesReplay` | ethiso-api/src/main/contracts/PaymentService.sol:160-205 | the balance of each pair and currency is the net of the payments announced as successful |
| `LedgerRuns.DeployedReplays` | ethiso-api/src/main/contracts/PaymentService.sol:160-205 | from the deployed contract on this holds for the machine, in 256-bit arithmetic, without any bound on amounts |
| `LedgerRuns.PositionsSumToZero` | ethiso-api/src/main/contracts/PaymentService.sol:160-216 | the net positions of all parties sum to zero in every currency |
| `LedgerRuns.PaymentMovesPosition` | ethiso-api/src/main/contracts/PaymentService.sol:160-205 | a payment moves the amount from the payer's net position to the payee's and changes nobody else's, a rejected one changes none |
| `TrustlineValues.TrustlineValue.SetLimit` | ethiso-core/src/main/java/com/std/ie/ethiso/domain/TrustlineValue.java:32-34 | the value as seen changes as the request says, the record underneath as seen through the reversals; refused exactly if negative |
| `TrustlineValues.TrustlineValue.SetAllow` | ethiso-core/src/main/java/com/std/ie/ethiso/domain/TrustlineValue.java:40-42 | the value as seen changes as the request says, the record underneath as seen through the reversals; refused exactly if negative |
| `TrustlineValues.TrustlineValue.SendPayment` | ethiso-core/src/main/java/com/std/ie/ethiso/domain/TrustlineValue.java:48-60 | the value as seen changes as the request says, the shared record through the reversals; granted exactly if within the smaller of limit and allowance |
| `TrustlineValues.TrustlineValue.Reverse` | ethiso-core/src/main/java/com/std/ie/ethiso/domain/TrustlineValue.java:66-68 | the new value shares the record and shows it from the other side |
| `TrustlineValues.TrustlineView.GetP1ToP2` | ethiso-core/src/main/java/com/std/ie/ethiso/domain/TrustlineValue.java:86-88 | the shared object of the direction that the parity of the reversals selects |
| `TrustlineValues.TrustlineView.SetP2OwesP1` | ethiso-core/src/main/java/com/std/ie/ethiso/domain/TrustlineValue.java:98-125 | the shared balance is set with the sign that the parity of the reversals gives |
| `TrustlineValues.SeenByParity` | ethiso-core/src/main/java/com/std/ie/ethiso/domain/TrustlineValue.java:103-126 | any depth of nested reversal acts as its parity |
| `TrustlineValues.AfterByParity` | ethiso-core/src/main/java/com/std/ie/ethiso/domain/TrustlineValue.java:32-126 | a request through any depth of reversal changes the record as through its parity |
| `LedgerRefinement.KeyIsPair` | ethiso-core/src/main/java/com/std/ie/ethiso/domain/TrustlineKey.java:24-36 | two calls reach the same record exactly if they name the same two parties and currency |
| `LedgerRefinement.StepRefines` | ethiso-api/src/main/contracts/PaymentService.sol:60-205 | a call of either party, through any depth of reversal of the right parity, changes the record of a pair as the matching request on the value or its reverse does exactly if it is not a payment to address zero of an amount that the value would grant and move |
| `LedgerRefinement.AnswersIff` | ethiso-api/src/main/contracts/PaymentService.sol:160-205 | the contract answers as the value does exactly if the call is neither refused for its limits nor a payment to address zero that the value grants |
| `LedgerRefinement.OwedRefines` | ethiso-api/src/main/contracts/PaymentService.sol:208-216 | what either party owes is the balance of the value or of its reverse |
| `LedgerRefinement.RunRefines` | ethiso-api/src/main/contracts/PaymentService.sol:60-216 | over any interleaving of calls the record is the value after the calls that concern the pair, payments to address zero not reaching it |
| `LedgerRefinement.DeployedRefines` | ethiso-api/src/main/contracts/PaymentService.sol:60-216 | the same for the 256-bit machine from deployment on, with amounts below 2^254 |
| `TransactionSubmitter.TransactionAndReceipt.Complete` | ethiso-payment-service/src/main/java/com/std/ie/ethiso/ethereum/TransactionPoller.java:104-106 | only the first receipt counts |
| `TransactionSubmitter.TransactionAndReceipt.Failed` | ethiso-payment-service/src/main/java/com/std/ie/ethiso/ethereum/TransactionPoller.java:111-115 | the failure is recorded, and another submission follows exactly up to the second one |
| `TransactionSubmitter.TransactionPoller.Run` | ethiso-payment-service/src/main/java/com/std/ie/ethiso/ethereum/TransactionPoller.java:53-82 | the receipts found complete their transactions; these stop being pending exactly if no request for a receipt went wrong |
| `TransactionSubmitter.Ethereum.SendTransaction` | ethiso-payment-service/src/main/java/com/std/ie/ethiso/ethereum/Ethereum.java:223-239 | one step of the state machine: the transaction is queued with the next nonce |
| `TransactionSubmitter.Ethereum.NewContract` | ethiso-payment-service/src/main/java/com/std/ie/ethiso/ethereum/Ethereum.java:205-221 | one step of the state machine: the transaction is submitted at once with the next nonce, which is used up if that fails |
| `TransactionSubmitter.Ethereum.SubmitNext` | ethiso-payment-service/src/main/java/com/std/ie/ethiso/ethereum/Ethereum.java:133-155 | one step of the state machine: the head of the queue is handed to the poller, queued again, given up, or left in hand when the timer breaks |
| `TransactionSubmitter.Ethereum.Poll` | ethiso-payment-service/src/main/java/com/std/ie/ethiso/ethereum/TransactionPoller.java:53-82 | one step of the state machine, with the receipts the node has |
| `Submission.EveryTransactionIsInOnePlace` | ethiso-payment-service/src/main/java/com/std/ie/ethiso/ethereum/Ethereum.java:130-239 | in every run the nonces handed out are consecutive and the transaction of each is in exactly one place |
| `Submission.AttemptsAreExact` | ethiso-payment-service/src/main/java/com/std/ie/ethiso/ethereum/Ethereum.java:133-155 | the submissions of a transaction are its failures, and one more unless it is queued or abandoned |
| `Submission.AtMostThreeAttempts` | ethiso-payment-service/src/main/java/com/std/ie/ethiso/ethereum/TransactionPoller.java:85-115 | no transaction is submitted more than three times, and the abandoned ones are exactly those that failed three times |
| `Submission.DisplacedIff` | ethiso-payment-service/src/main/java/com/std/ie/ethiso/ethereum/TransactionPoller.java:46-50 | in every run, no transaction is displaced exactly if the node never hands out a hash whose transaction still waits for its receipt |
| `Submission.DisplacedAre` | ethiso-payment-service/src/main/java/com/std/ie/ethiso/ethereum/TransactionPoller.java:46-50 | the transactions displaced in a run are those that waited under the hashes handed out again, one for each time |
| `Submission.ReceiptIsFound` | ethiso-payment-service/src/main/java/com/std/ie/ethiso/ethereum/TransactionPoller.java:53-106 | in every run, a transaction that waits under a hash has the first receipt found for it since the hash was handed out, if any |
| `Submission.DisplacedForGood` | ethiso-payment-service/src/main/java/com/std/ie/ethiso/ethereum/TransactionPoller.java:46-82 | a displaced transaction stays as it was, whatever happens: it never gets a receipt exactly if none had been found for its hash since that was handed out for it |
| `Submission.ReceiptStays` | ethiso-payment-service/src/main/java/com/std/ie/ethiso/ethereum/TransactionPoller.java:104-106 | a receipt is never replaced, and a completed transaction stays completed |
| `Submission.QueueDrains` | ethiso-payment-service/src/main/java/com/std/ie/ethiso/ethereum/Ethereum.java:130-155 | with no new input and an unbroken timer the queue is empty after three ticks for every transaction in it |
| `Submission.TicksInOrder` | ethiso-payment-service/src/main/java/com/std/ie/ethiso/ethereum/Ethereum.java:133-155 | what is queued is submitted in the order of the queue, once around, whatever is sent, polled or rejected meanwhile |
| `Imports.ContractReader.ReadContractInto` | ethiso-payment-service/src/main/java/com/std/ie/ethiso/ethereum/Ethereum.java:338-374 | the recursion over the shared builder and set of names gives the depth-first reading, and fails exactly if a resource is missing; it terminates |
| `Imports.FailsIff` | ethiso-payment-service/src/main/java/com/std/ie/ethiso/ethereum/Ethereum.java:342-370 | reading fails exactly if a resource that the root leads to is missing, and names such a one |
| `ImportLines.IsPragmaIff` | ethiso-payment-service/src/main/java/com/std/ie/ethiso/ethereum/Ethereum.java:348-353 | a pragma is a line of white space, the word, and anything that ends no line |
| `ImportLines.IsImportIff` | ethiso-payment-service/src/main/java/com/std/ie/ethiso/ethereum/Ethereum.java:354 | an import is a line of white space, the word, and two quotes somewhere behind it |
| `ImportLines.TargetIs` | ethiso-payment-service/src/main/java/com/std/ie/ethiso/ethereum/Ethereum.java:355-360 | an import names the text between the first and the last quote of its line, in the directory of the resource it is in |
| `ImportLines.TextJoins` | ethiso-payment-service/src/main/java/com/std/ie/ethiso/ethereum/Ethereum.java:349-374 | lines are written one behind the other with nothing between them |
| `Imports.OpensEachOnce` | ethiso-payment-service/src/main/java/com/std/ie/ethiso/ethereum/Ethereum.java:340-342 | each resource the root leads to is opened exactly once and no other, cycles or not |
| `Imports.WritesEachOnce` | ethiso-payment-service/src/main/java/com/std/ie/ethiso/ethereum/Ethereum.java:348-366 | each ordinary line of these resources is written exactly once, pragmas only from the root, imports never, and the lines of one resource in their order |
| `Imports.ImportsComeFirst` | ethiso-payment-service/src/main/java/com/std/ie/ethiso/ethereum/Ethereum.java:354-362 | all text of an imported resource and of everything it imports precedes what follows the import line, unless the import leads back to it |
| `Imports.AcyclicImportsComeFirst` | ethiso-payment-service/src/main/java/com/std/ie/ethiso/ethereum/Ethereum.java:354-362 | without cycles all text of an imported resource precedes what follows its import line |
| `Imports.ImportOrderIff` | ethiso-payment-service/src/main/java/com/std/ie/ethiso/ethereum/Ethereum.java:338-374 | with cycles or without, a line of an imported resource precedes what follows the import exactly if it was not still to come, in a resource still being read, when the importing resource was opened |
| `Imports.CycleBreaksOrder` | ethiso-payment-service/src/main/java/com/std/ie/ethiso/ethereum/Ethereum.java:340-362 | with a cycle it need not |

## Left out

- Pool: signatures and sender recovery, gas, metrics, logging, the event mux, goroutines and locks; each locked operation is one atomic step, and failed reads of the current state do not occur. Within one operation the head of the chain is read once.
- Pool: the class behind the lists (`txList`) is not part of the repository and is modelled as a map from nonces to transactions. Hashes are free of collisions. Iteration orders of maps are arbitrary, the priority queue pops a longest account, the sort puts a latest heartbeat last, and the sampled transaction that decides locality is any pending one.
- Pool: the read-only accessors.
- TxPool.TxPool.PromoteTx: asks for a pending state where the original would reset first; its only caller has established one, so that branch is not reached.
- Accounts.CapPendingKeepsPlaced: does not forget what is cut off, because the original leaves it among the known transactions.
- Block confirmation: failed requests, missing receipts, and the matching of log entries to listeners; firing a block is recorded as the block. Blocks of one level fire in any order. Block numbers are unbounded.
- EventRuns.WindowInEveryRun: asks for at least one confirmation; with none the store ends every call empty and ancestors are imported again.
- Codec: the Keccak hash behind the selector, reflection and casts, UTF-8 text and the address converter, which are one-line uses of the converters modelled. `IntTypeConverterFactory` builds the unsigned converter, which `TypeResolution` keeps; `Converters` models the signed one directly.
- Codec: `BigDecimal` is a real number, so a division that would not terminate does not fail. `decode` of call results, which reads outputs one after the other without offsets, is not modelled.
- AbiStandard.EncodingIsStandardIff: leaves out fixed-point types, whose scaling by powers of two is not the specification's.
- TypeResolution: only ASCII digits are read as digits; every kind of refusal is one result.
- Contract: the arguments of `TrustlineModified`, debug events, ownership, gas and calls with value.
- LedgerRefinement.RunRefines: is about calls by the two parties of a pair and currency, with the parties distinct, as the Java key demands.
- Submission: threads; each timer run and each call is one step. The chain is not modelled, so a receipt is whatever the node answers.
- Imports: the text of lines is taken as read; encodings and the class path are not modelled.
- JSON-RPC and its transports, the REST service, web socket, echo bot, the ISO 20022 beans, configuration, Docker helpers and the network statistics are not modelled.
