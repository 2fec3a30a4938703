# A Dafny model of cgminer's core

cgminer draws work from several mining pools, prepares it for hardware, and collects the results.
This project models the parts of it whose state is changed by many functions, and its exact
algorithms, and proves what they keep and compute.

| files | what they model |
|---|---|
| `Basics.dfy` | shared types and sequence facts |
| `Merkle.dfy`, `Coinbase.dfy`, `GbtPool.dfy` | block templates: the stored Merkle branch, the coinbase splice, the work built from them |
| `Priorities.dfy`, `Quota.dfy`, `Schedule.dfy`, `PoolManager.dfy`, `PoolRuns.dfy` | the pool table: priorities, failover, the priority, quota and remove commands, quota scheduling |
| `Ntime.dfy`, `WorkItem.dfy`, `Staging.dfy` | rolling work by its block time, and the table of staged work |
| `A1Chain.dfy`, `A1Pll.dfy` | the A1 driver: work ownership, clock dividers |
| `BabQueue.dfy`, `BabTuner.dfy` | the BaB driver: work items, speed tuning |
| `BflscQueue.dfy` | the BFLSC driver: queue accounting |
| `ApiRing.dfy`, `ApiQuote.dfy` | the API: reply lists, quoting and parsing |
| `Crc16.dfy` | the table-driven CRC |

State that the program updates in place is a class here, with an invariant `Valid` that every
method keeps; ghost fields record history (what was completed, released or marked). Where a
method is proved against a specification function, the lemmas are about that function. The
invariants hold after the constructor, so they hold in every reachable state.

Conventions:

- The double SHA-256 is a parameter of everything that uses it.
- What comes from outside (replies of devices and pools, success of a transfer, clocks, staleness)
  is a parameter, with every answer allowed unless stated here.
- A region under a lock is one atomic step. Operations with several regions are split where other
  threads come in between (`BflscQueue.dfy`); elsewhere the regions of one operation are run
  together.
- Integers are unbounded, except where the width matters: the 8-bit script length, the 32-bit
  time, the 64-bit nonce, the quota counters, the clock dividers and the CRC. The width of an
  unsigned long, 32 or 64 bits by platform, is a parameter of the quota model.

Where the code does not do what its names or comments suggest, the model follows the code:

- `adjust_quota_gcd` tests each pool once while its candidate falls, so its result need not be the
  greatest common divisor (`Quota.NotTheGreatest`).
- A quota counter can be negative, since failover-only mode gives charges back
  (`PoolRuns.NegativeCounterReached`) and discarded work does too. It is divided as an unsigned
  long, which is as intended exactly if it is not negative, or the new divisor is 1 (with an
  unsigned long of 32 bits) or a power of two (with one of 64 bits; `Quota.RescaledExactIff`).
- In failover-only mode a pool of priority 0 that has quota but cannot work gets its own charges
  back, so quotas are never refilled (`Schedule.DeadSpareNeverRefills`).
- `discard_stale` and `clear_pool_work` never lower `staged_rollable`, and `hash_push` raises it
  also when the queue is frozen. The invariant therefore says by how much the counter is too high.
- The test of the job number in `A1_scanwork` (line 903) rejects nothing, so
  `A1Chain.Chain.PollResults` needs job numbers 1 to 4 from the device.
- In `get_pll_reg` the choice of the multiplier 2 compares two constants and is never made.
- `remove_pool` does not adjust the rotation cursor of `select_pool`. When the last slot of the
  table goes, a cursor on it is left behind the table (`PoolRuns.StrandCursor`), where the array
  still holds a pool; `PoolManager.Manager.SelectStray` is what the next call does then.
- `add_pool` cuts the array to one slot more than the table needs. After several removals a
  cursor left behind can then be beyond the array, with quota left (`PoolRuns.LoseCursor`); the
  next call would read outside, so `PoolManager.Manager.SelectPool` starts from a cursor on a
  slot of the array or with no quota left.
- `gbt_decode` increments an 8-bit length, so long scripts are not extended
  (`Coinbase.SpliceLongScript`).
- A BFLSC result is charged to the device that reports it, which is right only if it is the one
  the work was sent to (`BflscQueue.ChargedToReporterIff`).
- BFLSC counters and the table of queued work have different locks. A flush between the regions
  of a result or a send leaves counters wrong under exact conditions (`ResultAcrossFlush`,
  `SendAcrossFlush`, `LabelAcrossFlush` and `SendInsideFlush` of `BflscQueue.Bus`), so a counter
  can become negative or count items that are not there.

## Model

| member | source | states |
|---|---|---|
| `Merkle.FoldPathIsRoot` | cgminer/cgminer.c:1802-1814 | folding any first hash over the sibling path of slot 0 gives the root of the full tree over that hash and the transactions, for every number of transactions; odd levels repeat their last node |
| `Merkle.FoldLast` | cgminer/cgminer.c:1807-1813 | each step hashes what there is so far, on the left, with the next stored sibling, on the right |
| `Merkle.RootOfHalves` | cgminer/cgminer.c:2102-2117 | the root over two full halves of the leaves is the hash of the two roots, left one first: so 64 bytes are hashed in the order of the slots |
| `Merkle.RootRepeatsLast` | cgminer/cgminer.c:2108-2111 | an odd number of full subtrees has the same root as with the last of them twice; with the halves this fixes the root for every number of leaves |
| `Merkle.NextOthersIsLevelUp` | cgminer/cgminer.c:2108-2117 | hashing a padded level and dropping slot 0 commute: what happens to the other slots does not depend on what is in slot 0 |
| `Merkle.PathLength` | cgminer/cgminer.c:2102-2119 | the path has ceil(log2(n + 1)) entries for n transactions |
| `Merkle.PathFitsPoolBuffer` | cgminer/cgminer.c:2102-2119 | the 16 entries a pool has room for are enough exactly when there are at most 65535 transactions |
| `GbtPool.Pool.HashLevel` | cgminer/cgminer.c:2113-2115 | one in-place pass leaves in slot k the hash of the old slots 2k and 2k+1: no read falls on a slot already overwritten, and slot 0 and the upper half are untouched |
| `GbtPool.Pool.ReduceLevel` | cgminer/cgminer.c:2108-2117 | padding and one pass turn the other slots of a level into those of the next one, with half as many slots (rounded up) |
| `GbtPool.Pool.ReduceInPlace` | cgminer/cgminer.c:2102-2119 | the level loop stores exactly the sibling path of slot 0, whatever placeholder slot 0 holds |
| `GbtPool.Pool.GbtMerkleBins` | cgminer/cgminer.c:2036-2119 | a template with a missing transaction or an undecodable hash leaves an empty path; otherwise folding any coinbase hash over the stored path is the root of the full tree |
| `GbtPool.LeafBytes` | cgminer/cgminer.c:2063-2099 | a leaf is the hash of the transaction, or the hash that the template shows with its bytes reversed |
| `GbtPool.NextOthersFromLevel` | cgminer/cgminer.c:2113-2115 | a level overwritten pairwise, slot 0 apart, is the next level of the path's definition |
| `GbtPool.Pool.GbtMerkleRoot` | cgminer/cgminer.c:1802-1814 | the fold loop computes the fold of the coinbase hash over the stored path |
| `GbtPool.Pool.GenGbtWork` | cgminer/cgminer.c:1866-1871 | the nonce is written into its window and nothing else in the coinbase changes, the 64-bit nonce advances modulo 2^64, and the Merkle root put in the header is the root of the tree over the new coinbase and the transactions |
| `GbtPool.Pool.GbtDecodeCoinbase` | cgminer/cgminer.c:1961-1981 | decoding leaves the spliced template in the buffer, with the 8-byte nonce window inside it right behind the old script |
| `GbtPool.SpliceInto` | cgminer/cgminer.c:1971-1980 | the writes into the zeroed buffer, the length byte being incremented as an 8-bit number, give the spliced template |
| `Coinbase.SpliceExtendsScript` | cgminer/cgminer.c:1961-1981 | a well-formed template is rebuilt into the same transaction with 8 bytes more script and a matching length byte exactly when its script has at most 244 bytes |
| `Coinbase.NonceLandsInScript` | cgminer/cgminer.c:1867-1868 | after the splice, writing any nonce changes only the last 8 bytes of the parsed script |
| `Coinbase.SpliceLongScript` | cgminer/cgminer.c:1975-1980 | above 244 bytes the length byte wraps or becomes a multi-byte marker, and the result is another transaction or none |
| `Coinbase.ParseSerialise` | cgminer/cgminer.c:1961-1981 | parsing the bytes of a transaction gives it back, for every script length, so the splice results are about transactions and not only bytes |
| `Coinbase.SerialiseParse` | cgminer/cgminer.c:1961-1981 | a template that parses is the byte form of what was parsed |
| `Coinbase.ReadWritten` | cgminer/cgminer.c:1961-1981 | a length field of any of the four widths is read back |
| `Coinbase.WrittenRead` | cgminer/cgminer.c:1961-1981 | and a field that is accepted is the shortest one for its value |
| `Coinbase.NonceSeparatesCoinbases` | cgminer/cgminer.c:1867-1868 | two nonces give the same coinbase exactly when they agree in the bytes written; the previous nonce leaves no trace |
| `Basics.LittleEndianDigit` | cgminer/cgminer.c:1867-1868 | byte i of the nonce written is the digit of 256^i |
| `GbtPool.RunCoinbasesDistinct` | cgminer/cgminer.c:1867-1869 | any two works among 2^64 in a row on one template have different coinbases |
| `PoolManager.Manager.AddPool` | cgminer/cgminer.c:622-649 | a new pool gets the last slot and the last priority, and keeps slots, priorities and quota scaling consistent; cutting the array to one slot more than the table needs keeps the cursor on a slot exactly under the condition stated |
| `PoolManager.Manager.Start` | cgminer/cgminer.c:9367 | slot 0 is the first current pool, and the invariant holds with it |
| `Priorities.PermutationCovers` | cgminer/cgminer.c:4271-4291 | with priorities a permutation of 0, ..., n - 1, every priority belongs to a pool, so a lookup by priority cannot fail |
| `PoolManager.Manager.PriorityPool` | cgminer/cgminer.c:4271-4291 | returns the pool of the wanted priority and never its fallback |
| `Priorities.PromotedPermutation` | cgminer/cgminer.c:4311-4321 | putting one pool first keeps a permutation, gives it priority 0 and keeps the relative order of all others |
| `PoolManager.Manager.PutFirst` | cgminer/cgminer.c:4311-4321 | the loop that moves pools back is this promotion |
| `Priorities.BestSlotIsBest` | cgminer/cgminer.c:4328-4334 | trying the priorities in order finds the usable pool of least priority, or shows that none is usable |
| `Priorities.NextSlotIsFirst` | cgminer/cgminer.c:4343-4354 | cycling finds, of all other usable slots, the one least far ahead modulo the number of slots, or shows that there is none |
| `PoolManager.Manager.SwitchPools` | cgminer/cgminer.c:4302-4360 | the invariant is kept; failover takes an enabled pool that is not idle and has the least priority of these, or keeps the current one if there is none; the cycling strategies take the selected pool unless it is idle, else, of those pools, the one in the slot least far ahead of the current one, or stay when there is no other; the selected pool is put first |
| `Priorities.RemovedPermutation` | cgminer/cgminer.c:4786-4807 | closing the gap of a removed pool keeps a permutation and the relative order of the others |
| `PoolManager.Manager.RemovePool` | cgminer/cgminer.c:4786-4807 | the removed pool leaves the table, the last pool takes its slot and number, the others keep theirs, and priorities close up; the array still holds the last pool behind the table; the rotation cursor is in the table afterwards exactly if it was, and not on the last slot |
| `PoolManager.Manager.RemovePoolCommand` | cgminer/api.c:2948-2990 | every refusal leaves table, priorities and array as they were; a pool that is not current is removed without a switch; the current one is removed exactly when the switch of the strategy (failover or cycling) finds another pool, which is then current; the last pool takes the slot; only the removed pool is disabled; the same condition on the cursor |
| `PoolManager.Manager.DropPool` | cgminer/api.c:2985-2990 | since a pool is disabled before it is removed, what stays behind the table is a pool that has another slot, or a disabled one |
| `PoolRuns.RemovalStrandsCursor` | cgminer/cgminer.c:3342-3357 | two calls on two pools with quota 1 bring the cursor to the slot whose removal leaves it behind the table |
| `PoolRuns.StrandCursor` | cgminer/cgminer.c:4786-4807 | the same on a table: two calls and one removal end with one pool, the cursor behind it, and a disabled pool there |
| `PoolRuns.LoseCursor` | cgminer/cgminer.c:622-649 | from any table of four pools with the cursor on the last slot and the first pool current, three removals and a new pool leave the cursor beyond the array that was cut, with quota left, so that the next call would read outside it |
| `Priorities.ReorderedUnique` | cgminer/api.c:2818-2859 | 'listed pools first in list order, the others after them in their old order, a permutation' determines the new priorities |
| `PoolManager.Manager.ReadIds` | cgminer/api.c:2818-2843 | the scan accepts exactly the lists of distinct valid pool numbers, and records each position |
| `PoolManager.Manager.Reprioritise` | cgminer/api.c:2845-2859 | the nested loops produce those priorities |
| `PoolManager.Manager.PoolPriority` | cgminer/api.c:2799-2866 | all or nothing: a bad, repeated or missing number changes nothing; otherwise the listed pools get 0, 1, 2, ... in list order, the others larger numbers in their old order, and, unless the current pool came first, the current pool is chosen again as its strategy (failover or cycling) does |
| `Quota.DivisorBounds` | cgminer/cgminer.c:582-619 | the divisor lies between every common divisor of the quotas and the least non-zero quota, so every non-zero quota keeps at least one unit |
| `Quota.NoQuotaNoScaling` | cgminer/cgminer.c:588-596 | without any quota the divisor is 1 |
| `Quota.ScanDividesLast` | cgminer/cgminer.c:597-606 | the last pool with a quota is always divided exactly |
| `Quota.DivisorIsGreatestIff` | cgminer/cgminer.c:582-619 | the result is the greatest common divisor exactly when it divides every quota, and then all ratios of scaled quotas are the ratios of the quotas |
| `Quota.FindsGreatestIffNoChainAbove` | cgminer/cgminer.c:582-619 | on the quotas alone: the greatest common divisor is found exactly when no non-increasing choice of one divisor per quota, from the least quota on, ends above it |
| `Quota.CandidatesAreChain` | cgminer/cgminer.c:597-606 | the search's candidates are such a choice, and end in its result |
| `Quota.ChainBelowScan` | cgminer/cgminer.c:597-606 | lowering the candidate greedily is optimal: no such choice ends above the search's result |
| `Quota.LeastDividesAll` | cgminer/cgminer.c:582-619 | that is the case whenever the least non-zero quota divides all others |
| `Quota.RescaledExactIff` | cgminer/cgminer.c:612-613 | a counter is rescaled by the quotient of the divisors (rounded down), through the int and unsigned long conversions of the code, if and only if it is not negative, or the new divisor is 1 (unsigned long of 32 bits) or a power of two (64 bits); for every counter that is an int, as long as the product is one |
| `Quota.NegativeQuotient` | cgminer/cgminer.c:612-613 | dividing a negative int as an unsigned long and keeping 32 bits rounds down exactly when the divisor is 1, for an unsigned long of 32 bits, or a power of two, for one of 64 |
| `Quota.ProductExact` | cgminer/cgminer.c:612 | the multiplication is exact for negative counters too, for either width of unsigned long |
| `Quota.NotTheGreatest` | cgminer/cgminer.c:597-606 | quotas 9 and 10 are scaled by 5, in the other order by 3, although their greatest common divisor is 1 |
| `Quota.RescaledExact` | cgminer/cgminer.c:612-613 | in particular, a counter that is not negative is always rescaled as intended for either width, unless the product overflows |
| `Quota.NegativeCounterMisscaled` | cgminer/cgminer.c:612-613 | a counter of -1 survives a divisor of 2 with a 64-bit unsigned long and becomes 2147483647 with a 32-bit one; with a divisor of 3 it becomes 1431655765 with both |
| `PoolRuns.NegativeCounterReached` | cgminer/cgminer.c:3346-3352 | failover-only scheduling does bring the counter of the pool of priority 0 to -1 while the divisor is 1; setting the third quota to 3 makes the divisor 3, and the counter then stands above the pool's quota for either width of unsigned long |
| `PoolManager.Manager.AdjustQuotaGcd` | cgminer/cgminer.c:582-619 | the method finds that divisor, scales every quota by it and rescales every counter, for either width of unsigned long |
| `PoolManager.Manager.PoolQuota` | cgminer/api.c:2867-2907 | a valid command sets that quota and no other, and scales all quotas and counters by the new divisor, for either width of unsigned long; a refused one changes nothing |
| `PoolManager.Manager.SearchDivisor` | cgminer/cgminer.c:597-606 | the nested loops terminate with the divisor the lemmas are about |
| `PoolManager.Manager.SelectPool` | cgminer/cgminer.c:3305-3378 | each strategy makes its choice: the balanced one a workable pool with least shares (or the current one), plain failover the current one without touching quotas, the others one step of the schedule, or of the call with a cursor behind the table; a removed pool is never chosen, and the cursor ends in the table, or stays where it was and the pool there has used one more of its quota |
| `PoolManager.Manager.SelectBalanced` | cgminer/cgminer.c:3280-3299 | the pool chosen has no more shares than the current one and than any pool that is enabled, not idle and, if it speaks stratum, has it active; the current one if it is among those with least, else the first of them; only its share counter changes |
| `PoolManager.Manager.SelectRotating` | cgminer/cgminer.c:3325-3374 | refill, rotation and fallback together are one step of the schedule, with the cursor in the table, or anywhere if the call refills |
| `PoolManager.Manager.SelectStray` | cgminer/cgminer.c:3325-3374 | with quota left and the cursor behind the table: the pool there is charged first; if it has quota and can work it is chosen (it is one that was moved) and the cursor stays, else the cursor is back on the first pool and the rotation goes on with one test less |
| `PoolManager.Manager.TestStray` | cgminer/cgminer.c:3345-3352 | the charge and the charge given back land on the counters of the table exactly as stated, also if the pool has another slot or is the one charged back |
| `PoolRuns.CallCursorBack` | cgminer/cgminer.c:3342-3357 | under load balancing a cursor behind the table is back in it after at most one call more than the pool there has quota left |
| `Schedule.MissSkipsLast` | cgminer/cgminer.c:3342-3357 | after a stray pool, whose test counts as one, the last slot of the table is neither tested nor picked |
| `PoolManager.Manager.RotatePools` | cgminer/cgminer.c:3342-3357 | the rotation loop charges the pools it passes, gives quota back to priority 0 in failover-only mode, and leaves the cursor where the schedule does, for any number of tests left |
| `Schedule.RotateIsFirst` | cgminer/cgminer.c:3342-3357 | a rotation without its steps: it ends with the first pool from the cursor on that has quota and can work, the pools up to it are charged once each and no other (charges given back apart), and the cursor is on it, or past the pools tested |
| `Schedule.SelectPicksFirst` | cgminer/cgminer.c:3325-3374 | a whole call by a load balancer: the first pool from the cursor on that has quota and can work; with no quota left anywhere the counters start at zero and the search one slot further; the fallback exactly if there is no such pool |
| `PoolManager.Manager.RefillQuotas` | cgminer/cgminer.c:3325-3340 | counters are cleared, and the cursor moved (from behind the table to the first pool), exactly when no pool has quota left |
| `Schedule.CallLowersOrRefills` | cgminer/cgminer.c:3325-3357 | failover-only off: each call strictly lowers the total unused quota, or refills exactly because it is zero |
| `Schedule.RoundBound` | cgminer/cgminer.c:3325-3357 | failover-only off: the calls from one refill to the next are at most the sum of the scaled quotas (one when that is zero) |
| `Schedule.GivingBackKeepsTotal` | cgminer/cgminer.c:3346-3352 | failover-only on: testing a pool that has quota but cannot work moves a charge, and leaves the sum of all counters |
| `Schedule.TestLowersWeight` | cgminer/cgminer.c:3345-3356 | failover-only on, priority 0 workable: testing a pool with quota strictly lowers the unused quota counted twice except for priority 0; testing one without changes nothing |
| `Schedule.FailoverCallLowersOrRefills` | cgminer/cgminer.c:3325-3357 | hence each call strictly lowers that weight, or refills exactly because it is zero |
| `Schedule.FailoverRoundBound` | cgminer/cgminer.c:3325-3357 | and a round has at most twice the sum of the scaled quotas, less that of priority 0, calls |
| `Schedule.DeadSpareNeverRefills` | cgminer/cgminer.c:3342-3357 | failover-only on, priority 0 with quota but not workable: no call ever refills, since it gets each of its own charges back |
| `Schedule.NothingGivenBack` | cgminer/cgminer.c:3346-3352 | when all pools are workable, failover-only makes no difference to a rotation |
| `Schedule.RotateTestsAll` | cgminer/cgminer.c:3342-3357 | in either mode, a rotation that finds nothing has charged every pool it had steps to reach, except the one that charges go back to |
| `Schedule.RotateCharges` | cgminer/cgminer.c:3342-3357 | in either mode, while a pool is workable only the calls that pick it use up its quota, by one; exactly so unless charges go back to it |
| `Schedule.AllWorkableFinds` | cgminer/cgminer.c:3342-3357 | in either mode, when all pools are workable and one has quota, the rotation finds one |
| `Schedule.PicksAreCharged` | cgminer/cgminer.c:3325-3357 | in either mode, over any refill-free run a workable pool is picked at least as often as its used quota grew, exactly as often when all stay workable |
| `Schedule.RoundIsFair` | cgminer/cgminer.c:3325-3357 | in either mode, over a whole round a pool that stays workable is picked at least `quota_gcd` times whatever the others do, exactly that often when all stay workable |
| `Ntime.ShiftHexTracksBytes` | cgminer/cgminer.c:3901-3909 | if the digits show the header bytes, the shifted digits show the shifted bytes, for any offset and across wrap-around |
| `Ntime.FromToBytes` | cgminer/cgminer.c:3912-3932 | reading back a time written big-endian gives the time |
| `Ntime.FirstByteDecides` | cgminer/cgminer.c:3924-3930 | the first byte that differs decides which of two times is later |
| `Ntime.HexRoundTrip` | cgminer/cgminer.c:4073-4083 | decoding the digits of any bytes gives the bytes |
| `Ntime.HexDigits` | cgminer/cgminer.c:3901-3909 | each byte is two digits, the high one first |
| `WorkItem.Work.Roll` | cgminer/cgminer.c:3912-3932 | one roll advances the time by one second modulo 2^32 and the roll counter by one, and digits and bytes stay the same time |
| `WorkItem.Work.CopyOffset` | cgminer/cgminer.c:4087-4121 | a copy is a new item `offset` seconds later, equal otherwise, with digits and bytes the same time; the original is unchanged |
| `WorkItem.Work.MakeClone` | cgminer/cgminer.c:3977-3989 | a clone has the master's time, cannot be rolled and counts as one second older |
| `WorkItem.Work.CloneWork` | cgminer/cgminer.c:4031-4061 | a call makes as many rounds as are wanted while rolling is allowed, and stops before only when it is refused: stale, stratum, no pool, no rolling, a clone, or 7000 rolls; r rounds are 2r rolls and r + 1 clones (none for r = 0), with offsets 0, 1, 3, 5, ... from the master's old time; each call is one step of the runs below |
| `WorkItem.StepKeepsSound` | cgminer/cgminer.c:3999-4061 | both ways of cloning keep all offsets distinct and below the master's |
| `WorkItem.RunsNeverRepeat` | cgminer/cgminer.c:3999-4061 | in every reachable run over one master no two clones have the same offset, the master is ahead of all, and it rolled at most 7001 times |
| `WorkItem.RunHeadersDistinct` | cgminer/cgminer.c:3912-3932 | hence all emitted headers have different 32-bit times, also across wrap-around, and none equals the master's |
| `WorkItem.MasterAheadIff` | cgminer/cgminer.c:3912-3932 | the master's time is the greater number exactly when the 32-bit time did not wrap in between |
| `Staging.Stage.HashPush` | cgminer/cgminer.c:4707-4723 | an accepted item goes behind all items staged no later; with the queue frozen it is lost but counted; the counter goes up exactly for rollable items |
| `Staging.Stage.NeverTooLow` | cgminer/cgminer.c:4404-4422 | in every reachable state the counter is at least the number of items in the table that are no clones and can roll, and the table is sorted by staging time without repetitions |
| `Staging.InsertKeeps` | cgminer/cgminer.c:4697-4700 | inserting there keeps the table sorted by staging time and the count of rollable items |
| `Staging.Stage.PlaceFor` | cgminer/cgminer.c:4697-4700 | the place is found by comparing staging times from the end |
| `Staging.Stage.HashPop` | cgminer/cgminer.c:6655-6666 | a non-empty table always yields an item: the first non-rollable one when the counter shows that there is one, else the first; a rollable item goes out only if the non-rollable ones are no more than the rollable ones lost track of |
| `Staging.Stage.CloneAvailable` | cgminer/cgminer.c:3999-4026 | the first item that may roll is rolled twice and its clone, taken in between, is staged; nothing happens exactly when no item may roll |
| `Staging.Stage.NoneRollable` | cgminer/cgminer.c:4004-4006 | a zero counter proves that no staged item is rollable, so leaving early misses nothing |
| `Staging.Stage.Drop` | cgminer/cgminer.c:4404-4422 | dropping stale items, or those of one pool, keeps the order of the rest and leaves the counter too high by exactly the rollable items dropped |
| `Staging.KeptSorted` | cgminer/cgminer.c:5964-5981 | what is left after a drop is sorted and free of the dropped items |
| `Staging.KeptConcat` | cgminer/cgminer.c:5964-5981 | each item is dropped or kept on its own, and what is kept stays in order |
| `Staging.KeptAll` | cgminer/cgminer.c:5964-5981 | nothing else is dropped |
| `Staging.AllRollable` | cgminer/cgminer.c:6655-6661 | the table has a non-rollable item exactly when it has more items than rollable ones |
| `A1Chain.CheckNewChips` | cgminer/driver-SPI-bitmine-A1.c:384-424 | every chip of a new chain starts clean with empty slots, given up exactly with fewer than 26 cores; the core counter is the number of cores of the others |
| `A1Chain.Chain.TableIsPartition` | cgminer/driver-SPI-bitmine-A1.c:595-629 | in every reachable state the device's table is the disjoint union of the queue and the loaded slots, and no item is in two slots |
| `A1Chain.Chain.EachOnce` | cgminer/cgminer.c:7400-7560 | in every reachable state each item ever admitted is in the table or was completed, not both, and completed once; the queue has no repetitions and at most two items per chip |
| `A1Chain.Chain.QueueFull` | cgminer/driver-SPI-bitmine-A1.c:995-1011 | reports full exactly with two items per chip waiting; else takes a waiting item into table and queue at the tail, and a stale one or none at all changes nothing |
| `A1Chain.Chain.Dequeue` | cgminer/driver-SPI-bitmine-A1.c:46-60 | takes the oldest waiting item, and fails only on an empty queue |
| `A1Chain.CompletedOnce` | cgminer/cgminer.c:7521-7560 | completing an item of the table keeps every item either in the table or completed once, never both |
| `A1Chain.Chain.CompleteSlot` | cgminer/cgminer.c:7521-7560 | the item of a slot leaves slot and table and is logged as completed |
| `A1Chain.Chain.SetWork` | cgminer/driver-SPI-bitmine-A1.c:595-629 | the slot's previous item is completed, then the new one is loaded and the slot index advances modulo 4, or it is completed and the chip put to rest; the ownership invariant holds either way |
| `A1Chain.Chain.PollResults` | cgminer/driver-SPI-bitmine-A1.c:892-930 | exactly the nonces that name a loaded slot of a chip of the chain are examined, in order, each for an item still in the table; the penalty is one range per nonce that does not check; no slot changes, and each chip's counters of stale, good and bad results grow by its own results of the kind |
| `A1Chain.AnsweredIs` | cgminer/driver-SPI-bitmine-A1.c:909-929 | these counters grow by the number of replies that name the chip and an empty slot, a loaded slot and check, or a loaded slot and do not |
| `A1Chain.HitsFound` | cgminer/driver-SPI-bitmine-A1.c:892-930 | these items are exactly those in the slots that some reply names |
| `A1Chain.HitsBad` | cgminer/driver-SPI-bitmine-A1.c:919-925 | and the penalty is the number of replies that name a loaded slot and do not check |
| `A1Chain.Chain.ScanChips` | cgminer/driver-SPI-bitmine-A1.c:932-973 | each chip is what its turn makes of it, with the waiting item counted by the chips after it that took one (not resting or given up, answering and with room); the ranges reported are the slots that held an item when they were loaded |
| `A1Chain.ScannedIs` | cgminer/driver-SPI-bitmine-A1.c:932-973 | what a chip is after its turn, by its fields: the item that is its turn in the slot it loads next (empty if the chip refuses it), the slot index one on, a finished range if the slot held an item; a chip that does not answer or refuses rests; all else stays |
| `A1Chain.Chain.ScanChip` | cgminer/driver-SPI-bitmine-A1.c:932-973 | the oldest item goes to the chip exactly when the chip is not resting, answers and has room: it replaces and completes what the slot held, or is itself completed if the chip refuses it; other chips are untouched |
| `A1Chain.Chain.CheckDisabled` | cgminer/driver-SPI-bitmine-A1.c:500-535 | no loaded work is touched; a cooled-down chip that answers is back with a clean record, one that does not rests again or, from its fourth failure on, is given up for good; the core counter follows |
| `A1Chain.Chain.CheckChip` | cgminer/driver-SPI-bitmine-A1.c:500-535 | a recheck, exactly: nothing before the chip has cooled down, a clean record if it answers, another rest if not, and from the fourth failure on it is given up and its cores are no longer counted |
| `A1Chain.Chain.ScanWork` | cgminer/driver-SPI-bitmine-A1.c:869-990 | a whole scan keeps the ownership invariant; every chip is exactly what the results, its turn and the recheck make of it; the ranges returned are those finished less one per bad nonce, never below zero; the queue only shrinks from its head and completions only accumulate |
| `A1Chain.Chain.FlushWork` | cgminer/driver-SPI-bitmine-A1.c:1014-1054 | afterwards table, queue and all slots are empty, and everything ever taken has been completed, once |
| `A1Chain.OwnedLoad` | cgminer/driver-SPI-bitmine-A1.c:623-627 | loading an item taken from the queue into an empty slot keeps the partition |
| `A1Chain.OwnedClear` | cgminer/driver-SPI-bitmine-A1.c:610-614 | emptying a slot and dropping its item from the table keeps the partition |
| `A1Chain.CoresUpdate` | cgminer/driver-SPI-bitmine-A1.c:500-535 | changing one chip changes the live cores by that chip's difference only |
| `A1Chain.CoresWithout` | cgminer/driver-SPI-bitmine-A1.c:520-524 | a chip given up takes exactly its own cores with it |
| `A1Pll.Gcd` | cgminer/driver-SPI-bitmine-A1.c:314-321 | the Euclidean loop ends with the greatest common divisor |
| `A1Pll.SearchIsTight` | cgminer/driver-SPI-bitmine-A1.c:322-345 | the feedback divider is the largest that does not overshoot the wanted clock for the divider reached, all fields fit their registers, and the clock is hit exactly if and only if the reduced fraction fits 9 bits and its pre divider 5 |
| `A1Pll.HitsWheneverPossible` | cgminer/driver-SPI-bitmine-A1.c:294-347 | the search hits the wanted clock exactly if and only if any pre, post and feedback dividers that fit the registers do, with the post divider a power of two |
| `A1Pll.FractionFits` | cgminer/driver-SPI-bitmine-A1.c:332-345 | a reduced fraction with numerator up to 511 is hit exactly, unless its pre divider is above 31; then never |
| `A1Pll.FractionTooBig` | cgminer/driver-SPI-bitmine-A1.c:325-331 | a numerator above 511 is replaced by the best one for a divider of 16, 8, 4 or 1, and never hits exactly |
| `A1Pll.ApproximationFits` | cgminer/driver-SPI-bitmine-A1.c:325-331 | the replacement fits 9 bits whenever the clock ratio is below 512 |
| `A1Pll.MultiplierIsLargest` | cgminer/driver-SPI-bitmine-A1.c:325-331 | the multiplier chosen is the largest of 16, 8, 4 and 1 for which the feedback divider fits |
| `A1Pll.ReplacementFitsIff` | cgminer/driver-SPI-bitmine-A1.c:325-331 | the replacement fits 9 bits if and only if the clock ratio is below 512 |
| `A1Pll.ReducedCoprime` | cgminer/driver-SPI-bitmine-A1.c:322-323 | dividing by the greatest common divisor leaves no common divisor |
| `A1Pll.DividesOtherFactor` | cgminer/driver-SPI-bitmine-A1.c:322-331 | a divisor of a product that shares nothing with one factor divides the other: why no approximation of a reduced fraction is exact |
| `A1Pll.RegistersDecode` | cgminer/driver-SPI-bitmine-A1.c:346-347 | the three fields are recovered from the two register bytes |
| `A1Pll.GetPllReg` | cgminer/driver-SPI-bitmine-A1.c:294-354 | the imperative search computes these fields and writes those bytes |
| `ApiQuote.EscapeString` | cgminer/api.c:759-819 | the result is the quoted string; a buffer is used only if there is a character to quote (the backslash, and the quotation mark in JSON, else comma, bar and equals sign), and then filled to its last byte: length, number of those characters, and the terminating zero |
| `ApiQuote.EscapeLength` | cgminer/api.c:762-790 | the counting pass predicts the length, and nothing to quote means nothing changes |
| `ApiQuote.CountIs` | cgminer/api.c:762-790 | the counting pass counts exactly those characters |
| `ApiQuote.CopyAdvanceAfter` | cgminer/api.c:2681-2696 | one field is copied unquoted, the input left behind the separator, and no more written than read, plus the zero when the input ended |
| `ApiQuote.PoolDetails` | cgminer/api.c:2698-2732 | the three fields are the ones of the definition, and for any input at most its length plus one bytes are written |
| `ApiQuote.FieldOfEscaped` | cgminer/api.c:2681-2696 | a quoted string before any separator of its kind, or at the end, is read back as the string: comma, bar or equals sign in text, the quotation mark in JSON |
| `ApiQuote.FieldHead` | cgminer/api.c:2681-2696 | what the parser does with one character: quoted, plain, the separator, or a quote at the very end |
| `ApiQuote.DetailsRoundTrip` | cgminer/api.c:2698-2732 | quoting url, user and password, joining them with commas and parsing gives the three back; without a password the parse fails |
| `ApiQuote.JsonRoundTripIff` | cgminer/api.c:759-819 | with the JSON quoting this works exactly when none of the three holds a comma |
| `ApiRing.AddData` | cgminer/api.c:848-880 | the ring read along `next` is the old one with the new item at its end, `prev` its inverse, and the root stays |
| `ApiRing.AddExtra` | cgminer/api.c:821-845 | splicing two disjoint rings gives the ring of the first followed by the second |
| `ApiRing.JoinedRing` | cgminer/api.c:821-845 | two chains tied end to start both ways are one ring |
| `ApiRing.Unlink` | cgminer/api.c:1278-1290 | taking the first node out leaves the ring of the others, or nothing |
| `ApiRing.PrintData` | cgminer/api.c:1143-1292 | every item is shown and freed once, in insertion order, and the root ends up null |
| `Crc16.ComputeCrc16` | cgminer/crc16.c:36-45 | on every buffer the table loop computes the bit-serial remainder modulo x^16 + x^12 + x^5 + 1, most significant bit first, starting from zero |
| `Crc16.TableIsDivision` | cgminer/crc16.c:1-34 | each of the 256 entries is the remainder of its one-byte message |
| `Crc16.ByteStep` | cgminer/crc16.c:41-42 | one table step is the division of eight message bits |
| `Crc16.DivideIsShifts` | cgminer/crc16.c:36-45 | dividing up to 16 bits equals adding them to the register at once and shifting |
| `Crc16.ReferenceLinear` | cgminer/crc16.c:36-45 | for equal lengths the CRC of the XOR is the XOR of the CRCs |
| `Crc16.BurstDetected` | cgminer/crc16.c:36-45 | two different buffers of one length that differ only inside one window of 16 consecutive bits never share a CRC |
| `Crc16.SeventeenBitsCollide` | cgminer/crc16.c:36-45 | a window of 17 bits is not enough: 88 10 80 and zeros share one |
| `Crc16.DivideInjective` | cgminer/crc16.c:36-45 | two different registers stay different however the message goes on |
| `BabQueue.Driver.QueueFull` | cgminer/driver-bab.c:2315-2365 | reports full exactly with one waiting item per live chip; one work item is rolled into as many items as are missing, at most its limit or 42 extra, rolled 0, 1, 2, ... times, in front of the waiting ones, whose order and loads stay |
| `BabQueue.Driver.LiveIs` | cgminer/driver-bab.c:2324-2330 | the live chips are those not disabled, counted |
| `BabQueue.Driver.DoWork` | cgminer/driver-bab.c:2144-2200 | it succeeds exactly with a waiting item per live chip: a chip in use gets the oldest item not given to a chip before it, a disabled one none; coming up short restores the waiting items to exactly their previous order, also with disabled chips in between |
| `BabQueue.Driver.PutBack` | cgminer/driver-bab.c:2160-2167 | adding the collected items to the tail, last first and skipping disabled chips, restores the list |
| `BabQueue.FilledItems` | cgminer/driver-bab.c:2148-2197 | the items in a transfer are exactly the ones missing from the tail of the waiting list |
| `BabQueue.Driver.SpiStep` | cgminer/driver-bab.c:1626-1681 | the oldest transfer is sent; only then its items are stamped and join their chip's list at the head |
| `BabQueue.Transferred` | cgminer/driver-bab.c:1668-1680 | moving a transfer's items to the chips' lists keeps every item in one place |
| `BabQueue.Driver.CleanupOlder` | cgminer/driver-bab.c:623-669 | of a chip's list exactly the tail behind the cut below goes to the head of the free list, and each load is given back once, oldest first |
| `BabQueue.KeptAreRecent` | cgminer/driver-bab.c:623-669 | for items sent in list order, the ones kept are exactly those sent less than 7800 ms ago and, if the item that gave a result is one of these, not older than it |
| `BabQueue.Driver.ReleaseTail` | cgminer/driver-bab.c:636-652 | the oldest item of a chip gives back its load and becomes free |
| `BabQueue.Driver.Replenish` | cgminer/klist.c:135-140 | a free list that runs out gets 1024 new items, still each item in one place |
| `BabQueue.Driver.AddWork` | cgminer/driver-bab.c:2348-2353 | the head of the free list carries the load to the head of the waiting items; a free list that is empty is filled up first; no other item's start time changes |
| `BabQueue.Driver.Disable` | cgminer/driver-bab.c:2030-2032 | giving up a chip lowers the live chips by one |
| `BabQueue.Driver.OnePlace` | cgminer/driver-bab.c:623-669 | in every reachable state an item of a chip is not free, not waiting, in no transfer, with no other chip, and only once with its own |
| `BabQueue.Driver.EveryItemHasAPlace` | cgminer/driver-bab.c:623-669 | in every reachable state every item ever made is free, waiting, in a transfer or with a chip: none is lost |
| `BabQueue.Driver.FreeOrWaitingOnce` | cgminer/driver-bab.c:2348-2353 | and a free or waiting item is in no other place, and only once there |
| `BabQueue.Driver.GivenBackOnce` | cgminer/driver-bab.c:645-659 | no load was given back twice, and none still carried was given back |
| `BabQueue.Driver.EveryLoadAccounted` | cgminer/driver-bab.c:623-669 | in every reachable state each load ever made is with exactly one item that is not free, or was given back, not both: no work is lost |
| `BabTuner.GetOptions` | cgminer/driver-bab.c:1347-1413 | each speed is as given, or 55, the smaller of 53 and the maximum, and 32; accepted exactly when they are then ordered and within 32..57 |
| `BabTuner.ReadOptions` | cgminer/driver-bab.c:1347-1413 | the program ends exactly when one of the three fields begins with something else than a digit or a d, or is out of its range; otherwise the speeds come out ordered, each as its field says |
| `BabTuner.AskedDecimal` | cgminer/driver-bab.c:1365-1374 | a number written in decimal digits, up to the first other character, is the number asked for |
| `BabTuner.AskedOrRefused` | cgminer/driver-bab.c:1366-1374 | an empty text or one that begins with a d keeps the default, one that begins with a digit asks for a number, any other is refused |
| `BabTuner.Tuner.constructor` | cgminer/driver-bab.c:1519-1525 | every chip starts at the default speed, below every speed marked bad |
| `BabTuner.Tuner.ProcessHistory` | cgminer/driver-bab.c:1787-1884 | with only bad results the speed goes down by one unless it is the lowest; else, if 100 times the bad results are at least the upper rate times all of them, down by one, if at most the lower rate times all, up by one where limits and bad speed leave room; the bad speed never rises |
| `BabTuner.Tuner.MarkBad` | cgminer/driver-bab.c:1803-1827 | with only bad results the speed is marked bad and left, unless it is the lowest; the invariant holds |
| `BabTuner.Tuner.TuneByRate` | cgminer/driver-bab.c:1829-1885 | with some good results the speed goes down, up or stays by the error rate as just said, never to a speed marked bad, and no bad speed changes (so the repair at line 1844 changes nothing) |
| `BabTuner.Tuner.MoreBadNeverFaster` | cgminer/driver-bab.c:1851-1885 | when the rate for going up is at most the one for going down, more bad results or fewer good ones never give a higher speed |
| `BabTuner.Tuner.ProcessNonce` | cgminer/driver-bab.c:1985-2041 | the same for every nonce; a chip is given up exactly when it has only bad results, enough of them, runs at minimum speed and its time is over; before that it is slowed down to the minimum; other chips are untouched |
| `BabTuner.Tuner.SlowDown` | cgminer/driver-bab.c:2024-2038 | a chip with only bad results is slowed down to the minimum, or given up if it runs there already and its time is over |
| `BabTuner.Tuner.NeverAtBadSpeed` | cgminer/driver-bab.c:1787-1884 | in every reachable state a chip runs at or above the minimum and strictly below every speed it was ever marked bad at |
| `BabTuner.Tuner.WithinLimits` | cgminer/driver-bab.c:1787-1884 | in every reachable state every chip runs between minimum and maximum, these within 32..57, and below its bad speed; the chips given up are counted |
| `BflscQueue.LimitsV1` | cgminer/driver-bflsc.c:793-802 | the version 1 limits leave room: full enough plus one stays below the queue size |
| `BflscQueue.LimitsV2` | cgminer/driver-bflsc.c:804-817 | and so do the version 2 limits, for any number of devices |
| `BflscQueue.AtRestCounts` | cgminer/driver-bflsc.c:1655-1657 | with nothing under way and nothing owed, each counter is the number of unflagged items sent to its device |
| `BflscQueue.Bus.CountersRight` | cgminer/driver-bflsc.c:1655-1657 | so at rest the counter of a device is the number of unflagged items in the table that say it |
| `BflscQueue.Bus.NeverOverfull` | cgminer/driver-bflsc.c:1663-1724 | in every state at any interleaving no device counts more than one item beyond full enough, which is below the queue size |
| `BflscQueue.Bus.Enter` | cgminer/cgminer.c:7409-7426 | the first region of a send puts the item into the table, still saying device 0, and no counter is off by it |
| `BflscQueue.Bus.Count` | cgminer/driver-bflsc.c:1651-1653 | the second counts it; the counter is then right exactly when the item is still in the table and not flagged, else one too high; no counter passes full enough plus one |
| `BflscQueue.Bus.Label` | cgminer/driver-bflsc.c:1655 | the write under no lock changes no balance by itself |
| `BflscQueue.Bus.Leave` | cgminer/driver-bflsc.c:1657-1659 | a failed send takes the item out again, and no counter is off by it |
| `BflscQueue.Bus.Take` | cgminer/driver-bflsc.c:1314-1315 | the first region of a result takes the item out, also before it was counted; if it was counted and not stale its charge is then under way |
| `BflscQueue.Bus.Charge` | cgminer/driver-bflsc.c:1351-1362 | the second charges the reporting device; that settles it if the item was counted for that device, else shifts one from one counter to the other, and for an item not counted yet leaves the counter of the reporter one too low until it is counted |
| `BflscQueue.Bus.FlagDev` | cgminer/driver-bflsc.c:946-956 | the first region of a flush flags exactly the items that say they are with the device; each open item it hits leaves its counter one too high |
| `BflscQueue.Bus.ZeroDev` | cgminer/driver-bflsc.c:958-964 | the second zeroes the counter, which is then too low by what is open for the device |
| `BflscQueue.Bus.FlushOneDev` | cgminer/driver-bflsc.c:938-965 | a whole flush leaves the device's counter right exactly when no result of it is under way and no item was counted for it without saying so (or, if it found nothing, when it was right); at rest it stays at rest |
| `BflscQueue.Bus.SendWork` | cgminer/driver-bflsc.c:1562-1661 | uninterrupted, a device below its limit gets the item, counted, exactly when the bus is there, lock, work and transfer succeed and it is not hot; every failure leaves table and counters as they were |
| `BflscQueue.Bus.ProcessNonces` | cgminer/driver-bflsc.c:1314-1361 | uninterrupted, the item leaves the table and is taken off the reporter's counter unless it was stale; all counters are right afterwards if and only if it was, or was sent to the reporter; the result counter advances exactly if the last nonce is good, and nothing else of any device changes |
| `BflscQueue.ChargedToReporterIff` | cgminer/driver-bflsc.c:1351-1361 | charging a result to the reporting device keeps all counters right exactly when the item was sent to that device, or was stale |
| `BflscQueue.Bus.ResultAcrossFlush` | cgminer/driver-bflsc.c:938-965 | with a flush between the two regions of a result: right if and only if the flush was of another device or found no other item, or the result was stale; otherwise the counter is -1 |
| `BflscQueue.Bus.SendAcrossFlush` | cgminer/driver-bflsc.c:1562-1661 | with a flush between entering and counting: right if and only if the flush was not of device 0; otherwise one too high |
| `BflscQueue.Bus.LabelAcrossFlush` | cgminer/driver-bflsc.c:1651-1655 | with a flush between counting and writing the device: right if and only if the flush was of device 0 and the item is for it, or of another device, or of the item's own device without other items |
| `BflscQueue.Bus.ResultBeforeCount` | cgminer/driver-bflsc.c:1651-1655 | the result of an item is handled before the item is counted: all counters are right in the end exactly when the reporting device is the one the item was sent to, and else one is too high and the other too low |
| `BflscQueue.Bus.SendInsideFlush` | cgminer/driver-bflsc.c:946-964 | with a send between the two halves of its device's flush: right if and only if the flush found nothing; otherwise the item is not counted |
| `BflscQueue.FlushAtRest` | cgminer/driver-bflsc.c:938-965 | flagging a device's items and zeroing its counter keeps all counters equal to the unflagged items when nothing is under way |
| `BflscQueue.Bus.Cleanup` | cgminer/driver-bflsc.c:1745-1778 | exactly the stale items of the devices with enough results since their flush are dropped, their flush is over, and no counter and nothing owed changes |
| `BflscQueue.Bus.DropStale` | cgminer/driver-bflsc.c:1763-1770 | exactly the flagged items of the device leave the table |
| `BflscQueue.Bus.PickDev` | cgminer/driver-bflsc.c:1681-1711 | a device that counts nothing is chosen, the first such, else the first that counts least, not hot and not just tried, with no more than is full enough; none is chosen exactly when all have more; sending is mandatory exactly when it counts something else than zero, less than the low mark; at rest the choice has least queued |
| `BflscQueue.Bus.TryDevice` | cgminer/driver-bflsc.c:1681-1717 | one try sends to the first device that counts least of those not hot and not just tried, if it has not enough, and succeeds exactly if the bus is free or the device runs low (but not empty), there is work, and the device takes it |
| `BflscQueue.Bus.QueueFull` | cgminer/driver-bflsc.c:1663-1724 | the outcome, exactly: the work of the first try goes to the device chosen, or else the work of the second try to the next one, and nothing else changes; full if and only if the bus is gone, no device has room, or, after a first try that failed, one of these is so for the others |

## Left out

- Coinbase.SpliceExtendsScript: the template is required to have one input and a shortest-form length; other inputs are not parsed.
- GbtPool.Pool.GbtDecodeCoinbase: requires a template long enough for the script length it states; the program does not look.
- GbtPool.Pool.ReduceInPlace: slots hold whole hashes, not 32 bytes at a computed offset, and the stored path may grow beyond the 16 entries of the buffer; `Merkle.PathFitsPoolBuffer` says when it does.
- PoolManager.Manager.SelectPool: the theorems about rounds in `Schedule` are for fixed quotas, a cursor in the table and no counter lowered by discarded work. With quota left, the cursor has to be on a slot of the array, as said above.
- Staging.Stage.HashPop: the wait for work, the growth of the queue limit and the signals are not modelled; the stale and expiry decisions of `should_roll` are parameters.
- A1Chain.Chain.PollResults: requires job numbers 1 to 4, as said above.
- A1Pll.SearchIsTight: requires what the code relies on: a ratio below 512 (`A1Pll.ReplacementFitsIff` says it has to be), no 32-bit overflow, and a pre divider of at most 8 bits when the reduced fraction fits.
- BflscQueue.Bus.ResultBeforeCount: the later writes of the program to the item, which is free by then, are not modelled.
- BflscQueue.Bus.SendWork: this, ProcessNonces and QueueFull run their regions together, from rest; what comes in between is in the regions themselves and in the four operations with a flush in between.
- BabTuner.ReadOptions: the splitting of the option text at its colons, the options after the third, and numbers too large for an int are not modelled.
- BabQueue.Driver.DoWork: which chips are disabled does not change during the call; waiting for the reply is a separate step.
- BabQueue.Driver.CleanupOlder: requires the item that gave the result to be in the chip's list; how results are matched to items is not modelled.
- ApiRing.AddData: the conversion of typed values to text is not modelled; a missing value becomes the constant text.
- The stratum and solo generators fold the coinbase over a branch as `GbtPool.Pool.GbtMerkleRoot` does; they are not repeated.
- Header assembly, byte flipping, hex and JSON decoding, sockets, USB, SPI and file access.
- Enable and disable commands, the counter of enabled pools, and parsing a list of pool numbers from text.
- The lag flag and the clearing of a pool's work when pools are switched.
- The linked lists of the drivers are sequences, since nothing depends on their pointers; chips are values in a table.
- Floating point: targets, difficulties, decaying averages and hash rates; the tuner's error rate is a real number.
- The three precomputed SHA-256 rounds of the BaB driver, and the matching of results to work by midstate.
- `setup_ipaccess`, whose mask loop ends with a negative shift, and the oldest-device choice of `bflsc_get_results`.
- The Avalon, Bitfury and other drivers, board selectors, voltage settings and statistics.
