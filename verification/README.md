# Bookkeeping of a multi-device miner

This project models the in-memory bookkeeping of a mining program that descends from cgminer: who owns each
work item while several devices work on many of them, which pool the next work is requested from, and how
works, roots and timings are computed. It proves that the bookkeeping keeps what it promises in every run.
What devices, pools and the clock say is an arbitrary input.

| file | what it models |
|---|---|
| Sequences.dfy, Wrappers.dfy | distinctness, deletion while iterating, and optional values, for all other files |
| Ring.dfy, KncSpec.dfy, Knc.dfy | the two rings of the KnC driver: a state machine over sequences with its run theorems, and the arrays that refine it |
| HashFast.dfy, Crc8.dfy | the sequence-numbered ring of the HashFast driver, and the CRC-8 of its headers |
| Bflsc.dfy | per-device counters and flush marks of the BFLSC driver |
| Avalon.dfy | the batch array of the Avalon driver, and the packet stripping |
| QuotaScale.dfy, PriorityOrder.dfy, PoolTypes.dfy, Pools.dfy | quotas, their divisor, priorities, and the pool list in place |
| Rotation.dfy, RoundOrder.dfy, Scheduler.dfy | the quota rotation as a function with its fairness theorems, the order within a round, and the loops that compute it |
| Merkle.dfy | the in-place Merkle reduction and the stratum branch |
| Sha256.dfy, Precalc.dfy | SHA-256 after FIPS 180-4, and the hand-written partial evaluation of its first rounds |
| Rolling.dfy, Staged.dfy | header time rolling and cloning, and the list of staged works |
| LeastSquares.dfy, Icarus.dfy | linear regression over the reals, and the timing history of the Icarus driver |
| Lists.dfy, ApiData.dfy | circular doubly linked lists on the heap, and the reply fields of the API |
| Escape.dfy, Replies.dfy | escaping and unescaping of text in the API, and what a client reads from a reply |

State that the program changes in place is a class or an array here. Each method is proved against a
function or a predicate, and the theorems are about these. Every section that the program protects with a
lock is one step.

Where the code and its comments or names differ, the model follows the code:

- `adjust_quota_gcd` is described as finding the greatest common denominator. Take any divisor of the first
  quota that is at most the lowest one, any divisor of the next that is at most that, and so on. The function
  finds the greatest common divisor exactly when no such chain ends above it (`QuotaScale.GcdFoundIff`,
  `QuotaScale.NineEight`).
- `quota_used`, an int that discarded works can make negative, is divided as an unsigned long
  (`QuotaScale.NegativeRescaledIff`).
- A comment in `bflsc_send_work` says that the lock is waited for if the queue of the device is empty. For
  an empty queue the lock is only tried; it is waited for if the queue is low but not empty
  (`Bflsc.BflscInfo.ChooseDevice`).
- `staged_rollable` counts too much after stale or cleared works and after refused pushes. What that does to
  the choice of `hash_pop` is stated exactly (`Staged.PopTakesMasterIff`).
- `hfa_free_all_work` is to free all works. A scan under way when a bad tail shuts the driver down still sends,
  and the first of these works is not freed (`HashFast.HashfastInfo.FreeAllWork`,
  `HashFast.SentAfterShutdownIsLost`).
- With failover-only on, the pool of priority 0 gets the unused quota of unworkable pools. The rotation can then
  stop for ever with quota left (`Rotation.SelectLowersIff`, `Rotation.StallIsForever`).
- A comment in `icarus_scanwork` says that results that are hardware errors give no timing sample. The number
  of errors before the nonce is submitted is tested to be greater than the number after it, which a failed nonce
  only makes less likely, so they do (`Icarus.ErrorsAreTaken`).

## Model

| member | source | states |
|---|---|---|
| KncSpec.EveryWorkInOnePlace | altcoin_gpu_miner/driver-knc-spi-fpga.c:384-538 | over every run of offers, queue, scan and flush steps with arbitrary replies, the fetched works that are not completed are exactly those in the two windows, each in one slot, and no work is completed twice |
| KncSpec.FlushCompletesAll | altcoin_gpu_miner/driver-knc-spi-fpga.c:714-751 | a flush ends with both windows empty and every work fetched so far completed, whatever the device replies |
| KncSpec.RunConserves | altcoin_gpu_miner/driver-knc-spi-fpga.c:645-751 | in every run the fetched works are, with multiplicity, the queued, the active and the completed ones, and both windows stay within their capacity |
| KncSpec.NextConserves | altcoin_gpu_miner/driver-knc-spi-fpga.c:645-751 | each single step keeps that account |
| KncSpec.RunFetches | altcoin_gpu_miner/ALTMiner.c:6522-6569 | no work is fetched more often than it was offered, so distinct offers give distinct works |
| KncSpec.AcceptMovesPrefix | altcoin_gpu_miner/driver-knc-spi-fpga.c:405-426 | a reply moves the oldest queued works in order, as many as it asks for and both rings allow |
| KncSpec.ScanRemovesOnlyStale | altcoin_gpu_miner/driver-knc-spi-fpga.c:449-486 | the walk removes only stale entries, keeps every entry with the id it looks for, passes no stale one, and finds the id exactly when an entry carries it |
| KncSpec.RespondRemoves | altcoin_gpu_miner/driver-knc-spi-fpga.c:431-534 | counted with repetitions: a nonce report removes no entry that was begun in the last minute or carries its id, a done report exactly one copy of one entry with its id and only if there is one, other kinds change nothing |
| KncSpec.RespondSweeps | altcoin_gpu_miner/driver-knc-spi-fpga.c:449-486 | a report whose id no entry carries leaves only entries begun in the last minute |
| KncSpec.RespondFresh | altcoin_gpu_miner/driver-knc-spi-fpga.c:443-534 | while all entries are that young, a done report completes the oldest entry with its id, the oldest of all takes its place and the others stay where they are |
| KncSpec.RespondInOrder | altcoin_gpu_miner/driver-knc-spi-fpga.c:436-535 | the responses of a reply are handled in their order, and so are the successes counted |
| KncSpec.DoneAtOnce | altcoin_gpu_miner/driver-knc-spi-fpga.c:405-535 | a work can be accepted and reported done by the same reply |
| KncSpec.TagAt | altcoin_gpu_miner/driver-knc-spi-fpga.c:360-371 | the k-th work of a batch is sent under the id of the k-th value of the counter |
| KncSpec.TagsDiffer | altcoin_gpu_miner/driver-knc-spi-fpga.c:360-371 | the works of a batch have different ids |
| KncSpec.AdvanceAdds | altcoin_gpu_miner/driver-knc-spi-fpga.c:371 | the counter moves on by one for each work of a batch |
| KncSpec.CountersMeet | altcoin_gpu_miner/driver-knc-spi-fpga.c:369 | two values of the counter give the same id exactly if they agree in the low 15 bits |
| KncSpec.SaltsMeet | altcoin_gpu_miner/driver-knc-spi-fpga.c:369 | two salts give the same id for a value of the counter exactly if they agree in the low 15 bits |
| KncSpec.IdsAreLow | altcoin_gpu_miner/driver-knc-spi-fpga.c:369 | every id is below 2^15, and without a salt it is the counter modulo 2^15 |
| KncSpec.RespondAllAccount | altcoin_gpu_miner/driver-knc-spi-fpga.c:431-535 | removal from the middle by copying the head into the hole neither loses nor duplicates a work |
| Knc.KncState.QueueFull | altcoin_gpu_miner/driver-knc-spi-fpga.c:688-712 | on the arrays, with the table of queued works: one waiting work is appended unless 85 are queued, and the result says whether they are |
| Knc.KncState.GetQueued | altcoin_gpu_miner/ALTMiner.c:6556-6569 | the waiting work enters the table and is no longer waiting |
| Knc.KncState.WorkCompleted | altcoin_gpu_miner/ALTMiner.c:6619-6633 | a completed work leaves the table; it has to be in it |
| Knc.KncState.CompleteActive | altcoin_gpu_miner/driver-knc-spi-fpga.c:522-533 | the middle removal on the array is the removal on the sequence |
| Knc.KncState.FindActive | altcoin_gpu_miner/driver-knc-spi-fpga.c:449-489 | the index walk, with removals under way, refines the walk over the sequence |
| Knc.KncState.HandleResponse | altcoin_gpu_miner/driver-knc-spi-fpga.c:431-534 | one response on the arrays refines its step on sequences, and it succeeds exactly if it reports a good nonce of an active work and nonces are submitted |
| Knc.KncState.AcceptWorks | altcoin_gpu_miner/driver-knc-spi-fpga.c:409-422 | the loop over accepted works refines the move of a prefix |
| Knc.KncState.ProcessResponse | altcoin_gpu_miner/driver-knc-spi-fpga.c:384-538 | a whole reply refines the acceptance followed by all responses, and the result is 2^32 times the number of those that succeed |
| Knc.KncState.PrepareRequests | altcoin_gpu_miner/driver-knc-spi-fpga.c:360-382 | every queued work is sent once, oldest first, with its words in reverse order, under the ids of consecutive values of the counter; no two ids of a batch are equal |
| Knc.KncState.Scanwork | altcoin_gpu_miner/driver-knc-spi-fpga.c:645-686 | one transfer: what is sent, that works stay queued until a reply accepts them, that a failed transfer changes only ids, and the result |
| Knc.KncState.FlushWork | altcoin_gpu_miner/driver-knc-spi-fpga.c:714-751 | both rings are drained in order, queued works first, and the reply then finds nothing |
| HashFast.RunIsFifo | altcoin_gpu_miner/driver-hashfast.c:430-461 | over every run works are freed once each and in the order in which they were sent, the others are outstanding or, sent after a shut-down, lost, and all together they never exceed the in-flight target although status reports interleave with the send loop |
| HashFast.StatusFrees | altcoin_gpu_miner/driver-hashfast.c:444-461 | a report d places ahead of the tail, of at most as many works as are outstanding, frees the oldest d works |
| HashFast.StatusShutsDown | altcoin_gpu_miner/driver-hashfast.c:444-461 | every other report frees all works and shuts the driver down |
| HashFast.ScanFills | altcoin_gpu_miner/driver-hashfast.c:736-787 | a scan fills the window exactly to the target |
| HashFast.TargetMustFit | altcoin_gpu_miner/driver-hashfast.c:745-783 | filling an idle ring to the target leaves the slots non-null exactly between tail and head if and only if the target is below the sequence modulus |
| HashFast.FitsBelowModulus | altcoin_gpu_miner/driver-hashfast.c:770-783 | with fewer works than the modulus the slots hold exactly the works sent |
| HashFast.OverrunFillsTailSlot | altcoin_gpu_miner/driver-hashfast.c:770-783 | with as many works as the modulus the slot of the tail is overwritten |
| HashFast.HashfastInfo.CountJobs | altcoin_gpu_miner/driver-hashfast.c:696-708 | the number of jobs is the free part of the target, and never more than the target, also for a count after a shut-down |
| HashFast.HashfastInfo.Send | altcoin_gpu_miner/driver-hashfast.c:745-783 | a sent work takes the next slot; the slots stay non-null exactly on the cyclic interval behind the tail, and the first work sent after a shut-down lands on the tail itself |
| HashFast.HashfastInfo.ParseStatus | altcoin_gpu_miner/driver-hashfast.c:430-461 | a tail inside the window frees the works up to it; the driver shuts down exactly when the tail is outside, having freed everything and left the tail one ahead of the head |
| HashFast.HashfastInfo.FreeAllWork | altcoin_gpu_miner/driver-hashfast.c:896-908 | the loop terminates although its guard compares two numbers it never changes, and every work is freed if and only if the slot of the tail is null, which it is unless a work was sent after a shut-down |
| HashFast.SentAfterShutdownIsLost | altcoin_gpu_miner/driver-hashfast.c:451-457 | a run in which a work is sent after a shut-down and never freed |
| Crc8.HfaCrc8 | altcoin_gpu_miner/driver-hashfast.c:43-53 | the table-driven CRC of a header is the bit-serial CRC-8 with polynomial x^8+x^2+x+1 and initial value 0xff of bytes 1 to 6 |
| Crc8.InitCrc8 | altcoin_gpu_miner/driver-hashfast.c:30-41 | each table entry is its index shifted eight times through the register |
| Crc8.EntryIsClockByte | altcoin_gpu_miner/driver-hashfast.c:30-53 | one look-up does the work of eight clocks of the serial register, for every register and byte |
| Crc8.TableIsPermutation | altcoin_gpu_miner/driver-hashfast.c:30-41 | the table has an inverse from either side |
| Crc8.CrcInjectiveInRegister | altcoin_gpu_miner/driver-hashfast.c:43-53 | different registers stay different under the same message of any length |
| Crc8.EntriesAreRemainders | altcoin_gpu_miner/driver-hashfast.c:30-41 | the table is linear with the low part of the generator at 1, so that its entries are remainders |
| Crc8.CrcResidue | altcoin_gpu_miner/driver-hashfast.c:43-53 | a message followed by its own CRC leaves zero |
| Crc8.SingleByteErrorDetected | altcoin_gpu_miner/driver-hashfast.c:43-53 | changing one byte of a message of any length changes its CRC |
| Crc8.HeaderByteProtected | altcoin_gpu_miner/driver-hashfast.c:43-53 | a change of one header byte changes the CRC if and only if it is one of the bytes 1 to 6 |
| Merkle.GbtMerkleRoot | altcoin_gpu_miner/ALTMiner.c:1818-1847 | the in-place reduction stays inside n + 2 nodes and returns the recursive root, for every number of transactions and every hash |
| Merkle.HashLevel | altcoin_gpu_miner/ALTMiner.c:1833-1845 | one round replaces a level by the level above, the last node doubled when the level is odd |
| Merkle.StratumMerkleRoot | altcoin_gpu_miner/ALTMiner.c:6076-6083 | the loop over the branch is the fold of the branch |
| Merkle.FoldOfBranchIsRoot | altcoin_gpu_miner/ALTMiner.c:6076-6083 | folding leaf 0 with its siblings level by level gives the recursive root |
| Merkle.BranchIgnoresLeafZero | altcoin_gpu_miner/ALTMiner.c:6076-6083 | the siblings do not depend on the coinbase |
| Merkle.StratumAgreesWithGbt | altcoin_gpu_miner/ALTMiner.c:6076-6083 | a branch taken once, with any coinbase, gives for every other coinbase the root the block template reduction gives |
| Merkle.BranchLength | altcoin_gpu_miner/ALTMiner.c:6079-6083 | the branch is as long as the least k with 2^k at least the number of leaves |
| Merkle.AboveConcat | altcoin_gpu_miner/ALTMiner.c:1833-1845 | a level splits at every even position |
| Merkle.RootOfHalves | altcoin_gpu_miner/ALTMiner.c:1818-1847 | the root of 2^k + m leaves hashes the root of the first 2^k with the node of height k over the others, so the levels build the usual binary tree |
| QuotaScale.DivisorIsBestChainEnd | altcoin_gpu_miner/ALTMiner.c:521-547 | the divisor found is the largest end of a non-increasing chain of divisors of the quotas in pool order |
| QuotaScale.DivisorAtLeastCommon | altcoin_gpu_miner/ALTMiner.c:521-547 | no common divisor exceeds the divisor found |
| QuotaScale.Divisor | altcoin_gpu_miner/ALTMiner.c:521-547 | the divisor found is at least 1 and at most every nonzero quota |
| QuotaScale.SharesSurvive | altcoin_gpu_miner/ALTMiner.c:549-554 | a pool keeps a scaled quota of at least 1 exactly if it has a quota, and a larger quota never becomes a smaller share |
| QuotaScale.ShareBounds | altcoin_gpu_miner/ALTMiner.c:553 | a scaled quota is the quota in units of the divisor, less than one unit short, and exact for its multiples |
| QuotaScale.SharesExactIff | altcoin_gpu_miner/ALTMiner.c:549-554 | all scaled quotas are exact if and only if the divisor is a common one |
| QuotaScale.GcdFoundIff | altcoin_gpu_miner/ALTMiner.c:519-547 | the divisor is the greatest common one exactly when no such chain ends above that, and then it divides every quota |
| QuotaScale.NineEight | altcoin_gpu_miner/ALTMiner.c:519-547 | quotas 9 and 8 give 2 although their greatest common divisor is 1 |
| QuotaScale.DescendIsLargest | altcoin_gpu_miner/ALTMiner.c:543-544 | the inner loop ends at the largest divisor of the quota that is not above its start |
| QuotaScale.RescaledKeepsValueIff | altcoin_gpu_miner/ALTMiner.c:549-554 | a counter loses less than one new unit exactly when the quotient fits an int and the divisor divides the number of units of 2^32 that the conversions add |
| QuotaScale.RescaledKeepsValue | altcoin_gpu_miner/ALTMiner.c:549-554 | so a counter that is not negative and whose product fits an int loses less than one new unit |
| QuotaScale.RescaledKeepsShare | altcoin_gpu_miner/ALTMiner.c:549-554 | a pool within its share before the rescaling is within it afterwards |
| QuotaScale.NegativeRescaledIff | altcoin_gpu_miner/ALTMiner.c:549-554 | a negative counter, being divided as an unsigned number, keeps its value if and only if the divisor divides 2^32 |
| QuotaScale.NegativeCounterJumps | altcoin_gpu_miner/ALTMiner.c:549-554 | a counter of -1 becomes 1431655765 when the divisor goes from 1 to 3 |
| Pools.PoolTable.AdjustQuotaGcd | altcoin_gpu_miner/ALTMiner.c:521-558 | on the pools in place: the divisor, every scaled quota and every rescaled counter; nothing else changes |
| Pools.PoolTable.PoolQuota | altcoin_gpu_miner/api.c:3021-3062 | the number of the pool and its quota are read from the text; a good quota is set and all quotas are scaled again; a missing number or comma, a bad pool number or a negative quota changes nothing |
| Pools.PoolTable.FindDivisor | altcoin_gpu_miner/ALTMiner.c:523-547 | the two loops terminate and find the divisor, with ~0UL standing for no quota |
| PriorityOrder.ReachableIsPermutation | altcoin_gpu_miner/ALTMiner.c:561-588 | after any sequence of additions, removals, switches and reorderings the priorities are a permutation of 0, ..., n - 1 |
| PriorityOrder.RemovedIsPermutation | altcoin_gpu_miner/ALTMiner.c:4357-4378 | removal with its swap of the last pool keeps a permutation |
| PriorityOrder.RemovedKeepsOrder | altcoin_gpu_miner/ALTMiner.c:4357-4378 | the pools that stay keep their order of priority |
| PriorityOrder.FrontedIsPermutation | altcoin_gpu_miner/ALTMiner.c:3863-3873 | moving a pool to the front keeps a permutation and the order of the others |
| PriorityOrder.ReorderedIsPermutation | altcoin_gpu_miner/api.c:2973-3014 | the listed pools come first in the given order, the others behind them in their old order, and the result is a permutation |
| PriorityOrder.EveryPriorityOccurs | altcoin_gpu_miner/ALTMiner.c:3821-3840 | every priority number is found |
| Pools.CheckIdsAccepts | altcoin_gpu_miner/api.c:2978-2994 | a list is accepted exactly when its ids are in range and distinct |
| Pools.CheckIdsStep | altcoin_gpu_miner/api.c:2978-2994 | after good ids, one out of range is answered with its number, and one that was listed before as repeated |
| Pools.FirstErrorStands | altcoin_gpu_miner/api.c:2978-2994 | the answer names the first id that is wrong |
| Pools.PoolTable.AddPool | altcoin_gpu_miner/ALTMiner.c:561-588 | the new pool comes last in the list and in priority, with quota 1, and the divisor is found again |
| Pools.PoolTable.RemovePool | altcoin_gpu_miner/ALTMiner.c:4357-4378 | pool_no stays the position in the list, the priorities close up, and the pool is marked |
| Pools.PoolTable.PriorityPool | altcoin_gpu_miner/ALTMiner.c:3821-3840 | the pool with a priority number is found, never the fall-back |
| Pools.PoolTable.SwitchPools | altcoin_gpu_miner/ALTMiner.c:3854-3932 | failover takes the usable pool of least priority number or keeps the current one; rotation takes the selected pool or the next usable one in cyclic order; the lagging flag, and the pool whose works are cleared |
| Pools.PoolTable.ChosenOnce | altcoin_gpu_miner/ALTMiner.c:3875-3912 | these conditions leave no choice: a pool that is asked for and not idle is taken when the pools go in turn; otherwise a usable pool is taken if there is one, and if not the current one stays |
| Pools.PoolTable.ChoosePool | altcoin_gpu_miner/ALTMiner.c:3875-3912 | the choice itself, for each strategy |
| Pools.PoolTable.MoveToFront | altcoin_gpu_miner/ALTMiner.c:3863-3873 | the loop over the pools moves the selected one to the front |
| Pools.PoolTable.PoolPriority | altcoin_gpu_miner/api.c:2954-3018 | a bad list changes nothing and is answered by its first error; a good one renumbers all pools and switches only if the current one lost the first place; the list is read from a comma-separated text |
| Pools.PoolTable.Renumber | altcoin_gpu_miner/api.c:2973-3014 | the three loops compute the reordering on the pools in place |
| Pools.IdsStep | altcoin_gpu_miner/api.c:2978-2998 | one turn of the reading loop takes one id from the text |
| Pools.PoolTable.ReadIds | altcoin_gpu_miner/api.c:2975-2998 | the marks and new numbers of the listed pools, or the first error |
| Pools.PoolTable.AppendUnlisted | altcoin_gpu_miner/api.c:3006-3014 | the unlisted pools follow in the order of their old numbers |
| Rotation.FairRound | altcoin_gpu_miner/ALTMiner.c:3039-3071 | with failover-only on or off and the pool of priority 0 anywhere: when no quota is left and all pools are workable, the calls of the next round return each pool exactly quota_gcd times, only the first resets, and the call after them resets again |
| Rotation.FairRounds | altcoin_gpu_miner/ALTMiner.c:3039-3071 | in either mode, over any number of rounds each pool is returned that many times its scaled quota |
| RoundOrder.FairInQuotas | altcoin_gpu_miner/ALTMiner.c:549-553 | over any number of rounds a pool is served in proportion to its quota, up to less than one unit of the divisor for each round, and exactly if and only if the divisor divides its quota |
| RoundOrder.ResetMovesOn | altcoin_gpu_miner/ALTMiner.c:3047-3071 | when no quota is left, the call returns the first pool that can be served going round from behind the pool where the rotation stood, which comes last; the rotation and all counters afterwards |
| RoundOrder.RoundInOrder | altcoin_gpu_miner/ALTMiner.c:3039-3071 | within a round the pools are served in that order, each as often in a row as its scaled quota says, and the rotation stands at the last one |
| Rotation.NeverOverQuota | altcoin_gpu_miner/ALTMiner.c:3039-3071 | in every run from a reset, with any pools unworkable and any discards, a pool has had no more selections, less discards and fail-only refunds, since the last reset than its scaled quota |
| Rotation.SelectFindsWorkable | altcoin_gpu_miner/ALTMiner.c:3056-3071 | a workable pool that has quota at its turn is returned whenever there is one, the first in the order of the rotation; with failover-only off that is quota at the start |
| Rotation.ScanFinds | altcoin_gpu_miner/ALTMiner.c:3056-3071 | the same for the tests that are made, refunds to the pool of priority 0 included |
| Rotation.ScanOutcome | altcoin_gpu_miner/ALTMiner.c:3056-3071 | in either mode, the pools up to the one returned, or all that are tested, are charged exactly once, the pool of priority 0 gets exactly the refunds back, and where the rotation stands |
| Rotation.SelectLowersIff | altcoin_gpu_miner/ALTMiner.c:3039-3071 | a call that does not reset lowers the quota left if and only if failover-only is off, a pool is served, or the pool of priority 0 is over its quota or has exactly used it up and gets no refund before its turn |
| Rotation.ScanNeverRaises | altcoin_gpu_miner/ALTMiner.c:3056-3071 | in either mode a call never raises the quota left, and it lowers it if it returns a pool |
| Rotation.ScanLowers | altcoin_gpu_miner/ALTMiner.c:3056-3071 | the same for any number of tests: with failover-only on and without a result, quota is lost exactly if a pool that has some is tested while the pool of priority 0 is over its quota, from the start or from its own turn on |
| Rotation.FailOnlyStalls | altcoin_gpu_miner/ALTMiner.c:3056-3071 | an input for which that condition fails: with failover-only on, one unworkable pool keeps its quota and no call changes anything |
| Rotation.StallStays | altcoin_gpu_miner/ALTMiner.c:3039-3071 | a call that does not lower the quota left returns no pool, and the next one does not lower it either while the same pools are workable |
| Rotation.StallIsForever | altcoin_gpu_miner/ALTMiner.c:3039-3071 | so that rotation never returns a pool and never resets while the same pools are workable |
| Rotation.FirstKeepsQuota | altcoin_gpu_miner/ALTMiner.c:3056-3071 | with failover-only on, nothing resets while the pool of priority 0 has quota and is unworkable, whatever the other pools are |
| Rotation.ResetComesWithin | altcoin_gpu_miner/ALTMiner.c:3039-3071 | in either mode, within as many calls as there was quota left, each of which lowers it, either the quota is used up, so that the next call resets, or a call stalls |
| Rotation.ResetComes | altcoin_gpu_miner/ALTMiner.c:3039-3071 | with failover-only off, or with the pool of priority 0 workable, the quota is always used up within that many calls |
| Rotation.SelectCharges | altcoin_gpu_miner/ALTMiner.c:3056-3071 | in either mode, with all pools workable a call charges exactly the pool it returns |
| Scheduler.SelectPool | altcoin_gpu_miner/ALTMiner.c:3019-3092 | the choice of a pool under every strategy: by shares, by the rotation, by priority, or the current one |
| Scheduler.SelectBalanced | altcoin_gpu_miner/ALTMiner.c:2994-3012 | no workable pool, nor the current one, has fewer shares than the one returned, which gets one more; the current pool wins ties, then the first in the list |
| Scheduler.Rotate | altcoin_gpu_miner/ALTMiner.c:3039-3071 | the loops on the pools compute the rotation, including the fail-only refund to the pool of priority 0 |
| Scheduler.TestOne | altcoin_gpu_miner/ALTMiner.c:3058-3071 | one turn charges the pool at the rotation and returns it or passes it over |
| Scheduler.TestPools | altcoin_gpu_miner/ALTMiner.c:3056-3071 | at most one test of each pool, from where the rotation stands |
| Precalc.DevBlkCtx.PrecalcHash | altcoin_gpu_miner/findnonce.c:49-130 | the midstate is the given state word by word; for every header tail and nonce, and for every state of the second hash, all fields are their SHA-256 values with the nonce left out |
| Sha256.ConstantsAreCubeRoots | altcoin_gpu_miner/findnonce.c:22-39 | the round constants are the first 32 binary places of the cube roots of the first 64 primes |
| Precalc.DevBlkCtx.ScheduleMeaning | altcoin_gpu_miner/findnonce.c:87-111 | W16, W17, PreW18, PreW19, PreW31 and PreW32 give the message schedule of section 6.2.2 of FIPS 180-4 once the nonce is added |
| Precalc.DevBlkCtx.FourthRoundMeaning | altcoin_gpu_miner/findnonce.c:93-96 | PreVal0 and PreVal4_2 plus the nonce are e and a after four rounds, and T1substate0 leads from the new a to the new e |
| Precalc.DevBlkCtx.InputMeaning | altcoin_gpu_miner/findnonce.c:71-121 | D1A and the sums with round constants are what the later rounds add |
| Precalc.DevBlkCtx.SecondHashMeaning | altcoin_gpu_miner/findnonce.c:122-130 | zeroA to sevenA give the first rounds of the second hash, whose block is the first digest |
| Precalc.RIsRound | altcoin_gpu_miner/findnonce.c:41-47 | the macro R is one round of section 6.2.2 of FIPS 180-4 |
| Precalc.ChForm | altcoin_gpu_miner/findnonce.c:44-45 | the form of Ch the macro uses |
| Precalc.MajForm | altcoin_gpu_miner/findnonce.c:47-47 | the form of Maj the macro uses |
| Precalc.RotateForms | altcoin_gpu_miner/findnonce.c:41-47 | the left rotations of the macro are the functions of section 4.1.2 of FIPS 180-4 |
| Precalc.MixForms | altcoin_gpu_miner/findnonce.c:91-106 | the rotations and shifts of the schedule are the small sigma functions |
| Precalc.EarlyWords | altcoin_gpu_miner/findnonce.c:91-100 | the schedule words 16 to 19 for a block with padding words 0x80000000, zeros and 0x280 |
| Precalc.LateWords | altcoin_gpu_miner/findnonce.c:97-98 | the schedule words 31 and 32 |
| Precalc.ThreeRounds | altcoin_gpu_miner/findnonce.c:62-76 | the three calls of the macro are the first three rounds, with variables renamed instead of moved |
| Precalc.InitialRound | altcoin_gpu_miner/findnonce.c:122-123 | the first round from the initial value, as two constants |
| Precalc.SecondHashInputs | altcoin_gpu_miner/findnonce.c:122-126 | the first inputs of the second hash |
| Icarus.IcarusInfo.AddSample | altcoin_gpu_miner/driver-icarus.c:1175-1304 | a result is taken if its nonce is not near an end of the range; its hash count is that of all chips; it joins the current set, or completes it when there are enough and the first one started over a minute ago; then the line is fitted to all samples of the last ten sets |
| Icarus.ErrorsAreTaken | altcoin_gpu_miner/driver-icarus.c:1172-1210 | a result that failed the check of its nonce is taken exactly if it would be without the failure |
| Icarus.TakenBetween | altcoin_gpu_miner/driver-icarus.c:1205-1210 | of the blocks of 65536 nonces exactly the first and the last give no sample |
| Icarus.IcarusInfo.Accumulate | altcoin_gpu_miner/driver-icarus.c:1209-1228 | the sums, count and extremes of the newest slot are those of its samples |
| Icarus.IcarusInfo.MoveSlots | altcoin_gpu_miner/driver-icarus.c:1236-1242 | all slots move down by one, the oldest is lost |
| Icarus.IcarusInfo.Merge | altcoin_gpu_miner/driver-icarus.c:1249-1265 | the merged slot holds the sums, count and extremes over all samples of the last ten completed sets |
| Icarus.IcarusInfo.Estimate | altcoin_gpu_miner/driver-icarus.c:1268-1292 | there is an estimate exactly when two samples have different hash counts; it is the best line, and the read time follows from it and its limit |
| Icarus.IcarusInfo.CompleteSet | altcoin_gpu_miner/driver-icarus.c:1234-1297 | shift, merge and estimate; the next set needs 10, 20, 40, 80 and then 160 samples, and short mode stops after the sixth set |
| Icarus.ReadTime | altcoin_gpu_miner/driver-icarus.c:1277-1283 | the read time keeps the limit, and ends at least the reduction before all nonces are done |
| Icarus.EstimateIsBest | altcoin_gpu_miner/driver-icarus.c:1268-1270 | slope and offset are the unique line of least squared error |
| Icarus.BestLineOfLine | altcoin_gpu_miner/driver-icarus.c:1268-1270 | samples on one line have no other best line |
| Icarus.MergeStep | altcoin_gpu_miner/driver-icarus.c:1254-1265 | adding a slot to the merged one is concatenating their samples |
| LeastSquares.SumsConcat | altcoin_gpu_miner/driver-icarus.c:1254-1258 | sums over two sets add up to the sums over both |
| LeastSquares.SpreadPositiveIff | altcoin_gpu_miner/driver-icarus.c:1268-1269 | the denominator is never negative, and positive exactly when two samples have different hash counts |
| LeastSquares.EstimateIsLeastSquares | altcoin_gpu_miner/driver-icarus.c:1268-1270 | no line has a smaller squared error than the estimate, and none but it has the same |
| LeastSquares.EstimateHasNoResidual | altcoin_gpu_miner/driver-icarus.c:1268-1270 | the residuals of the estimate sum to zero, and so do the residuals times the hash counts |
| LeastSquares.LineIsRecovered | altcoin_gpu_miner/driver-icarus.c:1268-1270 | samples on T = h X + w give exactly Hs = h and W = w |
| Lists.AddBetween | altcoin_gpu_miner/elist.h:34-42 | a node put between the ends of a ring makes a ring with it at the end |
| Lists.Add | altcoin_gpu_miner/elist.h:52-55 | the new entry becomes the first, the others keep their order |
| Lists.AddTail | altcoin_gpu_miner/elist.h:65-68 | the new entry becomes the last |
| Lists.Del | altcoin_gpu_miner/elist.h:77-93 | the entry leaves its place, the others keep their order, and its links are cleared |
| Lists.DelInit | altcoin_gpu_miner/elist.h:99-103 | the entry leaves its list and becomes an empty one |
| Lists.Move | altcoin_gpu_miner/elist.h:110-115 | the entry becomes the first of its list |
| Lists.MoveOver | altcoin_gpu_miner/elist.h:110-115 | the entry leaves one list and becomes the first of another |
| Lists.MoveTail | altcoin_gpu_miner/elist.h:121-126 | the entry becomes the last of its list |
| Lists.MoveTailOver | altcoin_gpu_miner/elist.h:121-126 | the entry leaves one list and becomes the last of another |
| Lists.Empty | altcoin_gpu_miner/elist.h:132-135 | true exactly for a list without entries |
| Lists.Splice | altcoin_gpu_miner/elist.h:137-160 | the entries of one list go before those of another, both in their order |
| Lists.SpliceInit | altcoin_gpu_miner/elist.h:137-176 | besides, the spliced list is empty afterwards |
| Lists.ForEach | altcoin_gpu_miner/elist.h:205-208 | the iteration ends and visits the entries in order, each once |
| Lists.RingUnique | altcoin_gpu_miner/elist.h:18-32 | the links of a list determine its entries and their order |
| Lists.Rotate | altcoin_gpu_miner/elist.h:18-32 | a ring may be read from any of its nodes |
| Lists.RingIsClosedChain | altcoin_gpu_miner/elist.h:18-32 | a ring is a chain of distinct nodes whose ends are linked |
| Lists.ChainConcat | altcoin_gpu_miner/elist.h:137-149 | two chains make one exactly when the ends between them are linked |
| ApiData.AddDataFull | altcoin_gpu_miner/api.c:900-929 | the field is appended, the root stays, and missing data becomes the constant (null) |
| ApiData.AddExtra | altcoin_gpu_miner/api.c:873-898 | the second list is appended as a whole; an empty list on either side is handled |
| ApiData.FreeFirst | altcoin_gpu_miner/api.c:1232-1243 | with all nodes of the list live, the first one is unlinked and freed; the rest stays a ring of live nodes |
| ApiData.PrintData | altcoin_gpu_miner/api.c:1121-1250 | the loop ends, every node is printed and freed exactly once and in order, the nodes left are live at every turn, and the text is the fields with commas between them |
| Replies.CommasHead | altcoin_gpu_miner/api.c:1141-1146 | the first field comes first, and a comma stands before each other one |
| Replies.ReplyIsRead | altcoin_gpu_miner/api.c:1121-1248 | in both forms, a client that undoes the escapes reads the names and values of all fields back, in order |
| Staged.Staging.Push | altcoin_gpu_miner/ALTMiner.c:4242-4258 | the work takes the place after all staged no later, and families stay in order; the counter is raised also when the queue is frozen and the work refused |
| Staged.Staging.Pop | altcoin_gpu_miner/ALTMiner.c:5938-5989 | without more works than the counter the oldest work is taken, else the oldest that is not rollable; only it leaves the list, and the counter drops by one if it is rollable |
| Staged.Staging.DiscardStale | altcoin_gpu_miner/ALTMiner.c:3956-3970 | exactly the stale works leave the list and the counter does not change |
| Staged.Staging.ClearPoolWork | altcoin_gpu_miner/ALTMiner.c:5391-5405 | exactly the works of the pool leave the list and the counter does not change |
| Staged.Staging.Delete | altcoin_gpu_miner/ALTMiner.c:3961-3967 | the counter stays the number of rollable works plus the exact number of rollable ones that left uncounted |
| Staged.Staging.CloneAvailable | altcoin_gpu_miner/ALTMiner.c:3550-3576 | the oldest work that can be rolled gives a clone; none is missed by the early exit on a counter of zero, and the families of the other works are untouched |
| Staged.PopFindsWork | altcoin_gpu_miner/ALTMiner.c:5968-5979 | a counter that is not below the number of rollable works guarantees that a work is found |
| Staged.SmallCounterFindsNone | altcoin_gpu_miner/ALTMiner.c:5968-5979 | with a smaller counter there is a list on which none is found |
| Staged.PopTakesMasterIff | altcoin_gpu_miner/ALTMiner.c:5968-5976 | a rollable work is taken exactly when the oldest is one and there are no more other works than the counter has drifted, and then it is the oldest; otherwise the oldest work that is not rollable is |
| Staged.DriftTakesMaster | altcoin_gpu_miner/ALTMiner.c:5968-5976 | such an input: with a drift of one a master is taken though a clone is staged behind it, without drift the clone is |
| Staged.StableSortMeans | altcoin_gpu_miner/ALTMiner.c:4232-4251 | the sort orders by staging time and keeps the order within a second |
| Staged.PushSorts | altcoin_gpu_miner/ALTMiner.c:4250-4251 | appending to an ordered list and sorting is inserting behind all works staged no later |
| Staged.InsertSplits | altcoin_gpu_miner/ALTMiner.c:4250-4251 | where a work is inserted |
| Rolling.HeaderTimesDiffer | altcoin_gpu_miner/ALTMiner.c:3471-3484 | all clones handed out and the master have different header times, each the original time plus the number of rolls modulo 2^32, and no number of rolls exceeds 7000 |
| Rolling.LimitKeptIffEven | altcoin_gpu_miner/ALTMiner.c:3465-3469 | rolling in pairs that each start below 7000 never exceeds 7000 if and only if the start is even, as it is for every work |
| Rolling.Work.Roll | altcoin_gpu_miner/ALTMiner.c:3471-3484 | the header time and the number of rolls go up by one and the nonce is cleared |
| Rolling.Work.RollCloneRoll | altcoin_gpu_miner/ALTMiner.c:3561-3563 | the clone has the number of rolls between the old and the new one of the master, and the family stays in order |
| Rolling.CloneWork | altcoin_gpu_miner/ALTMiner.c:3582-3612 | how many clones are staged, which turns the conditions allowed and why the loop stops, their numbers of rolls, what is returned and that the master is staged last |
| Bflsc.BflscInfo.ProcessNonces | altcoin_gpu_miner/driver-bflsc.c:1270-1318 | the first work with the key leaves; the counters of the device, and that they stay right if and only if the work was flagged or had been sent to the device that reports it |
| Bflsc.ResultAgrees | altcoin_gpu_miner/driver-bflsc.c:1300-1316 | that equivalence on the table and the counters alone |
| Bflsc.BflscInfo.Take | altcoin_gpu_miner/ALTMiner.c:6637-6651 | the first work with the key leaves the table, the others keep their order |
| Bflsc.BflscInfo.SendWork | altcoin_gpu_miner/driver-bflsc.c:1516-1615 | when a work is sent, that it is then counted for its device, and that a failed exchange leaves no trace but the lost work |
| Bflsc.BflscInfo.ChooseDevice | altcoin_gpu_miner/driver-bflsc.c:1636-1664 | the first of the devices with the least work that is neither overheated nor just tried; none exactly if all have more than enough; the lock is waited for only if the device has little work but some |
| Bflsc.ChosenUnique | altcoin_gpu_miner/driver-bflsc.c:1636-1664 | these conditions leave no freedom |
| Bflsc.BflscInfo.QueueFull | altcoin_gpu_miner/driver-bflsc.c:1617-1678 | to which device, if any, the two tries send the waiting work, what the result is, and that the counters stay at most que_full_enough + 1 |
| Bflsc.BflscInfo.FlushOneDev | altcoin_gpu_miner/driver-bflsc.c:938-965 | the works of the device and only they are flagged, its counter is zero and the other devices are unchanged |
| Bflsc.BflscInfo.FlushWork | altcoin_gpu_miner/driver-bflsc.c:967-974 | every work is flagged and every counter zero |
| Bflsc.FlagAllCounts | altcoin_gpu_miner/driver-bflsc.c:949-955 | flagging the works of a device makes its number zero and leaves the others |
| Bflsc.BflscInfo.CleanUp | altcoin_gpu_miner/driver-bflsc.c:1700-1730 | exactly the flagged works of devices with enough results since the flush are discarded, the others keep their order, and no counter changes |
| Bflsc.SweptCounts | altcoin_gpu_miner/driver-bflsc.c:1716-1722 | removing flagged works changes no number |
| Bflsc.UnflaggedIs | altcoin_gpu_miner/driver-bflsc.c:949-955 | the count that the counters agree with is the number of positions of works of the device that are not flagged |
| Sequences.KeptMembers | altcoin_gpu_miner/driver-bflsc.c:1716-1722 | which works are removed, and that no other is |
| Sequences.KeptConcat | altcoin_gpu_miner/driver-bflsc.c:1716-1722 | what is left of two lists in a row is what is left of each, in order |
| Sequences.SweepStep | altcoin_gpu_miner/driver-bflsc.c:1716-1722 | one turn of a loop that deletes from the list it iterates over |
| Escape.RoundTrip | altcoin_gpu_miner/api.c:2836-2887 | the non-JSON escaped forms joined by commas give url, user and password back exactly if the password is not empty, and are refused otherwise |
| Escape.JoinedInjective | altcoin_gpu_miner/api.c:813-871 | different details have different joined forms, whatever the password |
| Escape.ReadEscaped | altcoin_gpu_miner/api.c:2836-2851 | reading undoes escaping for every text, up to the end, where a last backslash stands for itself, or to a comma |
| Escape.ReadThrough | altcoin_gpu_miner/api.c:2836-2851 | and goes on with whatever follows the escaped text |
| Escape.ReadToEscaped | altcoin_gpu_miner/api.c:843-868 | in both forms no character of an escaped text ends it for a client: not a quotation mark in JSON, not a separator otherwise |
| Escape.SpecialIff | altcoin_gpu_miner/api.c:818-836 | a character gets a backslash exactly if it would be misread without |
| Escape.EscapedLength | altcoin_gpu_miner/api.c:818-841 | the counting pass counts exactly the characters the writing pass adds |
| Escape.EscapeString | altcoin_gpu_miner/api.c:813-871 | the text itself if nothing is special, else a new buffer that is filled exactly to its end |
| Escape.CountSpecials | altcoin_gpu_miner/api.c:818-836 | the counting pass |
| Escape.WriteEscaped | altcoin_gpu_miner/api.c:845-868 | the writing pass stays inside the buffer and writes the escaped text |
| Escape.CopyAdvanceAfter | altcoin_gpu_miner/api.c:2836-2851 | the field up to an unescaped comma, unescaped and NUL-terminated; writing never overtakes reading while something is left |
| Escape.PoolDetails | altcoin_gpu_miner/api.c:2853-2887 | for every parameter the three texts fit the one buffer of strlen + 1, and the result says whether there are three |
| Avalon.AvalonInfo.Fill | altcoin_gpu_miner/driver-avalon.c:1471-1499 | the table is exactly the non-null entries, none twice; the work that loses its slot was put there a whole round of batches ago, or by the same batch before a flush |
| Avalon.AvalonInfo.RotateArray | altcoin_gpu_miner/driver-avalon.c:1034-1047 | the batch position goes round and the new batch has nothing queued |
| Avalon.AvalonInfo.FlushWork | altcoin_gpu_miner/driver-avalon.c:1546-1553 | the batch starts again and no work is forgotten by that |
| Avalon.PlaceAgrees | altcoin_gpu_miner/driver-avalon.c:1489-1492 | replacing an entry keeps the table in agreement |
| Avalon.PlaceAged | altcoin_gpu_miner/driver-avalon.c:1487-1492 | the age of the entry that is replaced |
| Avalon.Strip | altcoin_gpu_miner/driver-avalon.c:303-313 | the buffer gets the reply without the two status bytes of every packet and is not overrun |
| Avalon.PayloadByte | altcoin_gpu_miner/driver-avalon.c:303-313 | byte j comes from offset 2 + j mod 62 of packet j div 62 |
| Avalon.PayloadLength | altcoin_gpu_miner/driver-avalon.c:303-313 | how many bytes are left |

## Left out

- HashFast.HashfastInfo.CountJobs: resets of the device, which rewind the counters. A scan counts its jobs before it sends works, so no count is made once a work was sent after a shut-down.
- HashFast.HashfastInfo.constructor: the target has to be below the sequence modulus, which HashFast.TargetMustFit shows to be necessary; the device sets both.
- Scheduler.SelectPool: `rotating_pool` has to be a position in the list; `remove_pool` does not correct it, so the pools are fixed while pools are selected.
- Knc.KncState.HandleResponse: error counts per core and the queue of disabled cores, which has no test for being full. Work ids may repeat; whether a nonce is good is an input.
- Knc.KncState.Scanwork: the re-enabling of disabled cores at its start.
- Icarus.IcarusInfo.AddSample: rounding of doubles; sums are exact, and an estimate with a zero denominator is none instead of an infinity, with the read time left as it was.
- Icarus.IcarusInfo.Accumulate: hash counts are not cut to 32 bits; every accepted count fits them.
- Bflsc.BflscInfo.SendWork: the two attempts of the exchange are one outcome; nonces and temperatures are inputs.
- Bflsc.BflscInfo.constructor: `que_full_enough` has to be below ten times `que_size`, as it is in both versions of the hardware.
- Bflsc.BflscInfo.Take: a key stands for the midstate and the block data that are compared.
- Staged.Staging.Push: HASH_SORT of uthash is taken as a stable sort, and the ids under which works are hashed are not modelled.
- Staged.Staging.Pop: the wait for the first work and the signals.
- Rolling.Work.Roll: the byte order of the header time and the new id of the work.
- Rolling.CloneWork: `should_roll` and `stale_work` are an input for each turn.
- ApiData.PrintData: the text of a value that is no string is an input, because it depends on its type; the reply buffer has no bound.
- Replies.ReplyIsRead: names and constant texts must need no escapes, as those of the program, and numbers must hold no separators.
- ApiData.AddDataFull: the copy of the data, by type.
- Pools.PoolTable.PoolPriority: `atoi` is any function from texts to numbers.
- Pools.PoolTable.PoolQuota: `atoi` is any function from texts to ints.
- Escape.PoolDetails: freeing the buffer when a field is missing.
- Precalc.DevBlkCtx.PrecalcHash: the unused code after it in the same file.
- Crc8.HfaCrc8: the CRC-32 of packet bodies.
- Merkle.GbtMerkleRoot: the hash is any function of two nodes; byte order changes around it.
- Time is a whole number of microseconds or seconds, counters have no width where nothing is said, and allocation always succeeds.
- `enabled_pools` and `queued_count`, which some writers bypass.
- `set_target`, `le256todouble`, average rates, statistics, configuration, curses, sockets, access control, OpenCL and ADL.
- `hfa_get_header` and other resynchronisation of broken input.
