# Verified models of a go-avalanria node

A Dafny model of the parts of the node where several tables or several actors have to stay in agreement, with proofs that
they do. `dafny verify dfyconfig.toml` checks everything.

| files | what they model |
|---|---|
| `heap.dfy`, `transactions.dfy`, `sorted_map.dfy`, `tx_list.dfy` | nonce-ordered transaction lists: a map, a heap over its keys and a cache of its sorted contents |
| `priced_list.dfy`, `tx_lookup.dfy`, `tx_book.dfy` | the two price heaps, the table of all transactions, the table of virtual nonces |
| `pool_structure.dfy`, `pool_nonces.dfy`, `pool_turns.dfy`, `pool_fairness.dfy`, `pool_batches.dfy`, `pool_resets.dfy`, `tx_pool.dfy`, `pool_cases.dfy` | the transaction pool and every run of it |
| `reorg_scheduler.dfy` | the scheduler that merges reset and promotion requests, as a state machine |
| `headers.dfy`, `canonical_index.dfy`, `header_chain.dfy` | the header chain through imports, forks and rewinds |
| `block_chain.dfy` | moving the head block between branches with both indexes |
| `chain_indexer.dfy` | section indexing while the chain changes underneath |
| `evm_context.dfy`, `ledger.dfy`, `state_transition.dfy`, `state_processor.dfy`, `words.dfy` | the BLOCKHASH cache, balances, one message, one block |
| `feed.dfy` | the event feed |
| `derivation_path.dfy` | wallet derivation paths |

Conventions. A hash is an injective identifier, so a header stands for its hash and carries the transactions it commits to,
and a transaction stands for its own hash. The database is maps and sets, caches are transparent. Clocks, coin tosses, peers,
channel readiness, the EVM and the order of Go map iteration are parameters or free choices. Objects that Go updates in place
are classes; the lists inside the pool's tables are values of the type that the class `TxList` is proved to compute.
Headers and blocks have positive difficulty and no chain has a transaction twice, as the consensus rules demand of them.

## Where the code falls short of the property one would expect

The exact condition is proved in a contract each time, and a concrete case beside it.

* A reset run can leave an executable transaction in the queue, because it starts the virtual nonces at the state nonce, and
  a queued transaction that continues a pending run is not ready there (`TxPool.PromoteAndDemote`, `TxPool.Reorg`,
  `LeftByReset`). Without reinjection and truncation this happens exactly if the transaction is usable and none of the
  pending run is dropped; it cannot happen in an account whose virtual nonce the new state has reached, if what is
  reinjected fits.
* When a reinjection overflows the pool it can evict a pending transaction that the new head has mined, and the virtual nonce
  ends behind the state, exactly then (`TxPool.Reset`, `ResetEvicts`, `FallBehind`). Every other operation, and every reset
  with room, keeps the virtual nonces at the state or past it (`TxPool.Reorg`, `TxPool.Run`).
* Behind the state, a virtual nonce no longer points at what is executable: a run without a reset leaves a transaction at the
  state nonce queued exactly then (`TxPool.Reorg`, `RestLeft`, `LeftBehind`).
* Importing headers that are all known can move the head without moving the canonical index
  (`HeaderChain.WriteHeaders`, `KnownBatchGoesStale`): only new headers, and known ones in front of new ones, are written.
* `SetHead` removes forks above the target only if the head itself is above it (`HeaderChain.SetHead`,
  `SideBranchSurvives`).
* A block reorg onto a single block lower than the old head leaves the numbers above it in the index
  (`BlockChain.WriteKnownBlock`, `HeavyBlockLeavesStaleNumber`). The transaction index is exact even then.
* `GetAncestor` asked for the zero hash above the head takes the missing canonical entry for a match and answers with a
  canonical hash (`HeaderChain.GetAncestor` with its predicate `Blank`, `ZeroHashMatches`). The condition rests on lookups
  that check the number; the header cache is keyed by hash alone, so a cached header asked for under a wrong number is
  outside it.
* A message refused after buying gas keeps its gas bought (`StateTransition.TransitionDb`, `RefusedYetPaid`).
* The empty derivation path prints as `m`, which does not parse (`RoundTrip`).

## Model

| member | source | states |
|---|---|---|
| TxPools.TxPool.Run | core/tx_pool.go:640-1532 | After every sequence of adds, reorg runs, price changes and evictions whose resets lower no account nonce, the lookup is the disjoint union of pending and queue, no nonce of an account is in both, no list is empty, slots is the sum, and every pending list is exactly the range from state nonce to virtual nonce with nothing queued older than the state; while nothing is reinjected, no virtual nonce falls behind the state |
| TxPools.TxPool.Reorg | core/tx_pool.go:1116-1183 | A run keeps the whole invariant and ends within the limits as far as accounts that are not local go. No virtual nonce falls behind the state unless a reset reinjects more than the pool has room for, and then only where something older than the new state was pending. Without a reset an executable transaction is left queued in a dirty account only if the virtual nonce was behind the state, exactly then if nothing needs truncating, and then the dirty accounts are promoted as specified and no other account changes. After a reset with room nothing executable is left in an account whose virtual nonce the new state has reached, and without reinjection it is left exactly if something pending precedes it and none of that is dropped. What is pooled is given stage by stage. With a reset, every transaction that comes back has its turn, and with room what is pooled then is exactly the standing batch; every account is then served, its two lists being a function of the ones before; then the pool is truncated. Nothing pooled after reinjection leaves unless its nonce is below the new state, its cost or gas is over the new balance or block limit, as many as the queue limit of an account that is not local wait in front of it, or its table was over its limit and it was cut from the top of an account that is not local, of whose pending list at least the allowance stays. Reinjection without room loses only remote ones and those of a nonce that comes back, at most as many as there are slots to take. In a small pool with room both lists of each account are that function of what stands and of the nonces pending before. The base fee is the one the reset brings, or stays |
| TxPools.TxPool.Add | core/tx_pool.go:640-727 | A known one is reported exactly when it is pooled; an invalid one, or one a full pool has no place for, is refused for exactly that reason and changes nothing, not even who is local; any other gets in exactly if it outbids the holder of its nonce, if there is one, or makes it leave. With room it takes its nonce and nothing else moves; otherwise it enters nothing but itself and loses nothing but remotes or the one replaced, and of remotes at most as many as it has slots on top of what the pool was over its limit. A sender becomes local exactly when a local transaction of it is queued. All promises at rest and during a reset are kept |
| TxPools.TxPool.AddAll | core/tx_pool.go:915-927 | With room for the batch every answer, and what is pooled afterwards, is the one decided by what was pooled before: known, invalid, not outbidding the holder of the nonce, or in, each in its turn; no nonce leaves a list, no virtual nonce moves, and every valid one finds its nonce held. Room or not, an invalid one is refused as known or invalid, nothing is new but what got in, the dirty accounts are exactly the senders of those queued without replacing one, each member has its turn (turned away only if it is remote, finds no room, and no remote one is cheaper by both orders or all remotes together are too few; otherwise in, unless it does not outbid a holder that stays), what leaves without a rival in the batch was remote and at most as many as the batch has slots, and a full pool that takes the first of a new batch loses something |
| PoolBatches.VerdictAlone | core/tx_pool.go:915-927 | In a batch without two members of one account and nonce every member is answered as if it were alone |
| PoolBatches.StandingAlone | core/tx_pool.go:915-927 | After such a batch a transaction is pooled exactly if it is a member that got in, or was pooled and shares its nonce with none of those |
| PoolBatches.StandingNew | core/tx_pool.go:915-927 | Whoever holds a nonce that was free before the batch, some member was queued there without replacing one, so its account is dirty |
| TxPools.TxPool.AddAndPromote | core/tx_pool.go:892-908 | End to end: with room and nothing to truncate, the transaction that gets the next nonce of an account that is not behind is pending after the batch and the run for its dirty accounts |
| TxPools.TxPool.AddTxs | core/tx_pool.go:862-911 | Known transactions and those without a sender are sorted out, every other one gets its own answer back in its own slot, with room exactly the one decided by what was pooled before, and the promotion of the next nonce follows |
| PoolBatches.Merge | core/tx_pool.go:897-904 | Filling the free slots in order gives every transaction its own answer and leaves the slots of those sorted out |
| PoolBatches.NewsAt | core/tx_pool.go:868-887 | The k-th new transaction is the one with k new ones before it |
| TxPools.Check | core/tx_pool.go:571-631 | Nothing is wrong exactly when the transaction is signed, well formed under the forks in force, not older than the state, within the gas limit, payable, and local or worth its tip; so what passes is payable |
| TxPools.TxPool.MakeRoom | core/tx_pool.go:658-683 | Evicts only remotes and only when the pool is full, and with room changes nothing; refuses exactly a remote for which no live remote is cheaper or for which the heaps could not free the slots, and then evicts nothing; for a remote that gets through, what was picked frees the slots, and without the last pick they would not have been free |
| TxPools.CheckNamesFirst | core/tx_pool.go:571-631 | The error is the first complaint that holds in the order of the checks, each given by the fields and limits it compares, and there is none exactly if no complaint holds |
| TxPools.TxPool.ReplacePending | core/tx_pool.go:684-708 | Succeeds exactly when both prices beat the holder by the bump; then the holder leaves and the new one takes its nonce, and nothing else changes; otherwise nothing changes at all |
| TxPools.TxPool.AddQueued | core/tx_pool.go:709-726 | Succeeds exactly when the nonce is not queued or its holder is outbid; then the new one is filed under its nonce and at most that holder leaves; otherwise nothing changes |
| TxPools.TxPool.EnqueueTx | core/tx_pool.go:732-767 | A transaction in no list lands in the queue exactly when its nonce is free or the queued holder is outbid, which then leaves, and the tables agree again; otherwise nothing changes |
| TxPools.TxPool.PromoteTx | core/tx_pool.go:785-815 | A transaction in no list lands in pending exactly when its nonce is free or the pending holder is outbid, with the virtual nonce the next one; otherwise it leaves the pool and nothing else changes |
| TxPools.TxPool.RemoveTx | core/tx_pool.go:965-1011 | Although lists are asked by nonce, exactly the named transaction leaves; the later pending ones go back to the queue without a collision and the virtual nonce steps back |
| TxPools.TxPool.Postpone | core/tx_pool.go:988-992 | Requeuing what lost its place loses and replaces nothing |
| TxPools.TxPool.DropTx | core/tx_pool.go:965-1011 | Removal keeps the nonce ranges of a pool at rest, the gap-freedom of one being reset, and virtual nonces that are not behind the state; each virtual nonce steps back to whatever left pending |
| TxPools.TxPool.PromoteAccount | core/tx_pool.go:1284-1337 | The whole run of the usable queue that is ready at the virtual nonce becomes pending and the virtual nonce moves past it, the rest is cut to the account limit unless local; nothing else changes |
| TxPools.TxPool.PromoteReady | core/tx_pool.go:1305-1312 | Exactly the ready run moves to pending and the virtual nonce to its end, in a pool at rest and in one following a new head |
| TxPools.TxPool.PromoteRun | core/tx_pool.go:1305-1312 | Promoting nonce by nonce is never refused; the promoted list rises by one from the virtual nonce to the end of the run |
| TxPools.TxPool.CleanQueue | core/tx_pool.go:1289-1301 | The queue keeps exactly what is neither too old nor too dear |
| TxPools.TxPool.CapQueue | core/tx_pool.go:1316-1326 | An account that is not local keeps its lowest nonces up to the limit |
| TxPools.TxPool.PromoteExecutables | core/tx_pool.go:1279-1340 | Every listed account is promoted exactly as one turn does it and no other account changes; accounts at rest stay at rest, and following ones go on following |
| TxPools.TxPool.DemoteAccount | core/tx_pool.go:1482-1531 | Pending keeps exactly what is fresh, payable and before the first unpayable; the payable rest is requeued; a list that does not start at the state nonce is requeued whole |
| TxPools.TxPool.CloseGap | core/tx_pool.go:1513-1526 | A list that does not start at the state nonce is requeued whole, any other stays |
| TxPools.TxPool.DemoteUnexecutables | core/tx_pool.go:1481-1532 | Every account is demoted exactly as one turn does it |
| TxPools.TxPool.PromoteAndDemote | core/tx_pool.go:1138-1156 | After it every account is gap-free from its state nonce with an exact virtual nonce once past it, and an executable transaction is left in a queue if and only if it was stuck: usable, behind a pending run none of which is dropped, and not pointed at by the virtual nonce. Both lists of every account are a function of the ones before, and the base fee is set if one is given |
| TxPools.TxPool.TruncatePending | core/tx_pool.go:1345-1427 | Ends with the true total within the limit or every account that is not local at most at its allowance; cuts only offenders, never below the allowance, keeps their lowest nonces, earlier offenders equally long, and undershoots the limit by fewer than the offenders |
| TxPools.TxPool.Equalize | core/tx_pool.go:1375-1397 | Accounts cut in step stay equally long, stop at the threshold or one round after the pool fits, and the running count is the true total |
| TxPools.TxPool.CapOne | core/tx_pool.go:1380-1395 | One account loses its highest nonce, its virtual nonce steps back to it, the total falls by one and no other account changes |
| TxPools.TxPool.TruncateQueue | core/tx_pool.go:1430-1472 | Exactly the excess is dropped unless only local queues are left; local queues stay, others keep their lowest nonces, pending does not change |
| TxPools.TxPool.Truncate | core/tx_pool.go:1157-1165 | Truncation and the nonce update bring a steady pool to rest within the limits, make nothing executable in a queue that was not, drop no virtual nonce behind the state, and change nothing when all transactions together fit both limits. A table that fits is as it was; otherwise only accounts that are not local lose transactions, always their highest nonces, pending lists no further than the allowance and the queue no more than the excess |
| TxPools.TxPool.FollowHead | core/tx_pool.go:1251-1262 | Over a state that lowers no nonce, pending has no gap from the new state nonce on and virtual nonces start there |
| TxPools.TxPool.Reset | core/tx_pool.go:1187-1274 | Following a head and reinjecting keep the tables in agreement and pending gap-free from the new state nonce; a virtual nonce is then behind the state exactly if reinjection evicted something pending that is older, and a full pool that takes the first one back does evict something. Unless it overflows the pool, reinjection loses no nonce, leaves the virtual nonces on the new state, and what is pooled is exactly what a batch checked against the new head makes of it. Room or not, each one that comes back has its turn, and what leaves without its nonce coming back was remote and at most as many as there are slots to take back |
| TxPools.TxPool.FollowReset | core/tx_pool.go:1116-1165 | The stages of a run with a new head, in terms of the tables before it, and every promise of the run as a whole |
| TxPools.TxPool.ServeAll | core/tx_pool.go:1138-1165 | Promoting, demoting and truncating a pool in the middle of a reset bring it to rest; nothing leaves but what is too old, too dear, beyond the queue limit or cut |
| PoolResets.LeavesFor | core/tx_pool.go:1279-1532 | A transaction that served and truncated accounts no longer hold was too old, too dear, beyond the limit of a queue that is not local, or cut |
| PoolTurns.ServedKeeps | core/tx_pool.go:1279-1532 | Promotion and demotion keep every transaction of an account that is recent and payable in one of its lists, unless its queue is not local and as many as the limit wait in front of it |
| PoolTurns.ServedIs | core/tx_pool.go:1279-1532 | A promotion followed by a demotion while a reset is followed is that one function of both lists |
| PoolResets.CutFor | core/tx_pool.go:1345-1477 | What truncation takes belongs to an account that is not local, from a table over its limit, and everything the account keeps there has a lower nonce |
| PoolResets.FiledIs | core/tx_pool.go:245-248 | What is pooled and which nonces are pending decide both lists of an account |
| PoolResets.DisplacedNext | core/tx_pool.go:915-927 | One more member of a batch displaces nothing beyond what it displaced itself, and only what was remote before the batch |
| TxPools.EvictedFew | core/tx_pool.go:658-683 | Evicting until there is room costs at most as many transactions as the newcomer has slots, on top of what the pool was over its limit |
| TxBooks.TxBook.PricesMean | core/tx_list.go:523-593 | Underpriced means that no remote is cheaper both with and without the base fee, and the heaps can always free the slots of all remotes |
| TxPools.TxPool.SettleNonces | core/tx_pool.go:1161-1165 | Virtual nonces set after the highest pending nonce bring every account to rest and move none that was at rest |
| TxPools.TxPool.ChangeGasPrice | core/tx_pool.go:429-446 | Exactly the remotes below a raised price leave, and the invariant is kept |
| TxPools.TxPool.EvictExpired | core/tx_pool.go:367-383 | Exactly the queues of silent accounts that are not local are emptied; pending and virtual nonces stay, and nothing new is pooled |
| TxPools.Sanitize | core/tx_pool.go:180-215 | The result is workable; every setting that is at least one is kept and every other gets its default |
| PoolTurns.RestLeft | core/tx_pool.go:1284-1315 | Promoting an account at rest leaves an executable transaction queued if and only if its virtual nonce is behind the state and a usable one waits at the state nonce |
| PoolTurns.PromotedNext | core/tx_pool.go:1305-1312 | A payable transaction at the virtual nonce of an account at rest that is not behind becomes pending |
| PoolTurns.StuckLeft | core/tx_pool.go:1284-1531 | Promoting and demoting an account on a new head leaves an executable transaction queued if and only if it was stuck |
| PoolTurns.TrimmedRests | core/tx_pool.go:1380-1395 | Whatever truncation takes from the top, stepping the virtual nonce back to the first that left keeps pending an exact range |
| PoolTurns.TrimmedLeft | core/tx_pool.go:1345-1472 | Truncation makes no queued transaction executable that was not |
| PoolTurns.DemotedSteadily | core/tx_pool.go:1482-1531 | Demoting an account that follows the new state leaves it gap-free from its state nonce, with all that its virtual nonce counts |
| PoolCases.LeftByReset | core/tx_pool.go:1127-1165 | A concrete case: a reset to the same state before a second transaction was promoted leaves it queued behind the pending first one |
| PoolCases.ResetEvicts | core/tx_pool.go:1257-1268 | A concrete case: a reset that reinjects into a full pool evicts a mined transaction that is still pending, and the virtual nonce is behind the new state |
| PoolCases.FallBehind | core/tx_pool.go:1257-1268 | The run of that reset ends with the virtual nonce still behind |
| PoolCases.LeftBehind | core/tx_pool.go:1303-1312 | The same pool goes on: the next transaction of that account is executable, and a run for the account leaves it queued |
| PoolStructure.WhereIs | core/tx_pool.go:981-1010 | A pooled transaction holds its nonce in exactly one of the two lists of its account |
| PoolStructure.RemovePending | core/tx_pool.go:982-998 | Removing by nonce removes that transaction and puts exactly those after it in flight |
| PoolStructure.LandInQueue | core/tx_pool.go:732-767 | Landing in the queue keeps pending, queue and flight a disjoint cover of the lookup |
| PoolStructure.LandInPending | core/tx_pool.go:785-815 | The same for pending |
| PoolStructure.FilterPendingList | core/tx_pool.go:1493-1508 | Filtering a pending list splits it into kept, dropped and in flight without loss |
| PoolStructure.TotalIsAll | core/tx_pool.go:1346-1349 | The two tables together hold as many transactions as the lookup |
| PoolStructure.CountTxs | core/tx_pool.go:1346-1349 | The loop counts every transaction of every list |
| PoolNonces.ReadyStartsAtNonce | core/tx_list.go:194-209 | If anything queued is ready, it starts at the virtual nonce, which is then exact |
| PoolNonces.AdvanceKeepsSolid | core/tx_pool.go:1251-1262 | A state that only moves forward leaves no gap above it |
| PoolNonces.CutRests | core/tx_pool.go:982-998 | Cutting pending at a removed nonce and stepping the virtual nonce back leaves an exact range |
| PoolNonces.DemotedSteady | core/tx_pool.go:1482-1531 | Dropping old and unpayable ones keeps all that the virtual nonce counts |
| PoolFairness.OffendNext | core/tx_pool.go:1363-1399 | The longest account left joins after the earlier offenders were cut towards its length, and all remain at least as long as any account waiting |
| PoolFairness.OffendFair | core/tx_pool.go:1401-1425 | After the last cut only offenders lost anything, and none fell below the allowance |
| PoolFairness.DrainTurn | core/tx_pool.go:1448-1471 | One turn of the queue loop takes the highest nonces of one account that is not local, all of them while more is due, and no other account changes |
| ReorgScheduler.AlwaysInv | core/tx_pool.go:1046-1113 | Every state of every interleaving of requests, launches, ends of runs and shutdown satisfies the invariant |
| ReorgScheduler.StepKeeps | core/tx_pool.go:1046-1113 | Every select case, launch and end of a run keeps the invariant |
| ReorgScheduler.AtMostOneActive | core/tx_pool.go:1057-1069 | At any moment at most one run is active, the last one |
| ReorgScheduler.DoneMeansCovered | core/tx_pool.go:1015-1113 | A closed channel means that a finished run covered the request, a reset run every requested account with something queued, except at shutdown |
| ReorgScheduler.FinishedPromotes | core/tx_pool.go:1116-1145 | A finished reset run promoted every account with something queued, whatever was dirty; any other run exactly the accounts it was asked for |
| ReorgScheduler.ResetsTelescope | core/tx_pool.go:1072-1080 | The heads of successive resets form one unbroken path up to the latest head |
| SortedMap.TxSortedMap.Put | core/tx_list.go:73-79 | The plain map gains the transaction; heap and cache still agree with it |
| SortedMap.TxSortedMap.Forward | core/tx_list.go:84-98 | Removes exactly the nonces below the threshold, returned in nonce order; a sliced cache is still the sorted contents |
| SortedMap.TxSortedMap.Filter | core/tx_list.go:105-112 | Removes exactly what the predicate picks and rebuilds heap and cache |
| SortedMap.TxSortedMap.FilterItems | core/tx_list.go:125-139 | The same without rebuilding the heap |
| SortedMap.TxSortedMap.Reheap | core/tx_list.go:114-121 | The heap is a min-heap over exactly the keys |
| SortedMap.TxSortedMap.Cap | core/tx_list.go:143-164 | Keeps exactly the lowest nonces up to the threshold, returns the rest from the top down; a sliced cache is still the sorted contents |
| SortedMap.TxSortedMap.Remove | core/tx_list.go:168-185 | Removes exactly the nonce and says whether it was there |
| SortedMap.TxSortedMap.Ready | core/tx_list.go:194-209 | Removes and returns in order exactly the maximal run from the lowest nonce, if that is not above start |
| SortedMap.TxSortedMap.Flatten | core/tx_list.go:216-237 | The contents in rising nonce order, cached or not |
| SortedMap.TxSortedMap.LastElement | core/tx_list.go:241-244 | A member with the highest nonce |
| SortedMap.SortedTxs | core/tx_list.go:216-226 | Sorting the contents by nonce can give only one list |
| Transactions.LinesUnique | core/tx_list.go:216-226 | There is one listing of a map in rising nonce order |
| BinaryHeap.Pop | core/tx_list.go:34-48 | The popped element is least and the rest is a heap of the rest, as container/heap promises |
| BinaryHeap.Remove | core/tx_list.go:168-185 | Removing at any position leaves a heap of the other elements |
| BinaryHeap.Sort | core/tx_list.go:143-164 | A permutation in rising order |
| TxLists.TxList.Add | core/tx_list.go:279-312 | Inserts exactly when the nonce is free or both prices beat the holder by the bump, returns the holder, and refines the value model |
| TxLists.TxList.Forward | core/tx_list.go:317-319 | Refines the value model and returns what it removed in order |
| TxLists.TxList.Filter | core/tx_list.go:330-359 | Kept, removed and invalidated are exactly the payable part, the unpayable and the rest: a partition of the list |
| TxLists.TxList.Cap | core/tx_list.go:363-365 | Refines the value model and returns what it removed |
| TxLists.TxList.Remove | core/tx_list.go:370-381 | The nonce leaves, and in a strict list exactly the later ones are invalidated |
| TxLists.TxList.Ready | core/tx_list.go:390-392 | Refines the value model and returns the ready run |
| TxLists.CapsAlwaysBound | core/tx_list.go:279-381 | The cost and gas caps bound every member after every operation |
| TxLists.FilterIgnoresCaps | core/tx_list.go:330-336 | The short circuit gives the same result as filtering without it |
| TxLists.StaysGapFree | core/tx_list.go:317-381 | On a strict gap-free list Forward, Filter, Remove and Cap leave gap-free lists with these bounds |
| TxLists.PayableRange | core/tx_list.go:330-359 | A gap-free list is cut exactly at its first unpayable nonce |
| TxLists.OutbidsMeans | core/tx_list.go:279-312 | A replacement must exceed both caps of the held one, and by the bump: a hundred times one more than the bid exceeds the held cap times a hundred plus the bump |
| TxLists.DroppedMeans | core/tx_list.go:330-359 | Exactly what costs more than the balance or wants more gas than the block has is dropped |
| Transactions.FewestSlots | core/tx_pool.go:1794-1796 | The slots of a transaction are the fewest 32 kB pieces that hold it, and at least one |
| PricedLists.TxPricedList.Discard | core/tx_list.go:557-593 | Terminates, drops only live remotes, succeeds unforced exactly when the live heap entries fill enough slots and then frees as many, and otherwise drops nothing and keeps all tracked; each one dropped was the cheapest of the floating heap it left, which held its share of all that was live and not yet dropped; and without the last one dropped the slots would not have been free |
| PricedLists.TxPricedList.Reheap | core/tx_list.go:596-618 | Every remote is in exactly one heap once, a fifth of them floating, and none of those ranks above an urgent one, by what is left for the miner under the base fee, fee cap, tip cap and later nonce |
| PricedLists.TxPricedList.Underpriced | core/tx_list.go:523-551 | True exactly when something live is tracked and no live urgent entry ranks beneath it under the base fee and no live floating one by fee cap and tip cap alone |
| PricedLists.TxPricedList.Removed | core/tx_list.go:511-519 | Whether or not it rebuilds the heaps, no live remote is lost from them |
| PricedLists.TxPricedList.SetBaseFee | core/tx_list.go:622-625 | The heaps are rebuilt with every remote once, none of the floating ones ranking above an urgent one under the new fee |
| PricedLists.ByRank | core/tx_list.go:429-453 | The comparison is that of the triples of what is left for the miner, fee cap and tip cap, and the heap order breaks ties by the later nonce |
| PricedLists.CheaperWithFee | core/tx_list.go:429-453 | With a base fee, from the fields alone: the smaller of tip cap and fee cap less the fee decides, then fee cap, tip cap and the later nonce |
| PricedLists.CheaperWithoutFee | core/tx_list.go:429-453 | Without a base fee: fee cap decides, then tip cap, then the later nonce |
| PricedLists.BetterTipIsNotUnderpriced | core/tx_list.go:523-551 | A newcomer with the lower fee cap that leaves the miner more is not underpriced |
| PricedLists.TxPricedList.Put | core/tx_list.go:500-506 | A remote enters the urgent heap, a local none |
| PricedLists.LessIsOrder | core/tx_list.go:429-453 | The price comparison is a strict weak order for every base fee |
| TxBooks.TxBook.Replace | core/tx_pool.go:693-700 | Lookup and price heaps change together: the held one leaves, the new one enters, every remote stays tracked |
| TxBooks.TxBook.Discard | core/tx_pool.go:666-682 | What is picked is remote and still pooled until the pool removes it; success and refusal as for the priced list |
| Lookups.TxLookup.Add | core/tx_pool.go:1730-1742 | The set gains the transaction and slots stays the sum over the members |
| Lookups.TxLookup.Remove | core/tx_pool.go:1745-1762 | The set loses the transaction and slots stays the sum |
| Lookups.TxLookup.RemoteToLocals | core/tx_pool.go:1766-1779 | Exactly the remotes of the accounts are refiled and counted |
| Lookups.TxLookup.RemotesBelowTip | core/tx_pool.go:1782-1791 | The loop collects exactly the remotes below the tip, each once |
| Lookups.TxNoncer.Get | core/tx_noncer.go:45-55 | Reading through to the state changes no nonce |
| Lookups.TxNoncer.Set | core/tx_noncer.go:59-64 | One nonce changes, no other |
| Lookups.TxNoncer.SetIfLower | core/tx_noncer.go:68-79 | One nonce becomes the lower of the two, no other changes |
| HeaderChains.HeaderChain.Run | core/headerchain.go:149-640 | The index is exactly the ancestor path of the head with nothing above, and total difficulties are the sums along the paths, after a run of imports and rewinds if and only if no import of it, when its turn comes, is one of known headers only that the fork choice moves to; any other run stops after its first such import. Stored headers and head are those of a replay on sets. Imports that always end in a header not seen before are safe whatever the rewinds and coins, and imports alone never lower the difficulty of the head |
| HeaderChains.NewIsClean | core/headerchain.go:233-276 | A run whose imports each end in a header that is neither stored nor in an earlier import never misleads the index |
| HeaderChains.HeaderChain.WriteHeaders | core/headerchain.go:149-301 | The head moves exactly to a last header of more total difficulty, or of the same at a lower number, or of the same number if the coin says so, counts and status are exact, difficulty never falls, and the invariant holds afterwards if and only if the batch is not a known one the fork choice moves to |
| HeaderChains.KnownBatchGoesStale | core/headerchain.go:265-276 | A concrete case: importing a known side branch of equal weight again moves the head and leaves the index on the other branch |
| HeaderChains.HeaderChain.Import | core/headerchain.go:153-211 | Stores exactly the unknown tail of the batch with the sums of difficulties |
| HeaderChains.HeaderChain.Reindex | core/headerchain.go:229-276 | With something new in the batch the index becomes exactly the path of its last header; without, the entry of its last header stays as it was |
| HeaderChains.StaysStale | core/headerchain.go:233-276 | A known preferred header is off the canonical path, so an index that keeps its entry is wrong |
| HeaderChains.PassedOver | core/headerchain.go:221-228 | A batch the fork choice passes over does not extend the head |
| HeaderChains.HeaderChain.SetHead | core/headerchain.go:563-640 | A head above the target is rewound to its ancestor there and no header of any fork above it remains; a head not above it changes nothing |
| HeaderChains.SideBranchSurvives | core/headerchain.go:563-640 | A concrete case: a longer, lighter fork above the target survives when the head is not above it |
| HeaderChains.HeaderChain.NumbersFrom | core/headerchain.go:603-611 | Stopping at the first empty height misses no header above |
| HeaderChains.Rewound | core/headerchain.go:612-635 | Deleting all heights above n leaves the path up to n, every fork up to n, and their sums |
| HeaderChains.HeaderChain.GetAncestor | core/headerchain.go:425-457 | Over a database that finds a header only under its own number, gives up or returns exactly the hash and number reached by following that many parents, if and only if the zero hash is not asked for above the head; a known header's ancestor is found exactly when the walk is short enough or reaches the canonical chain in time; the steps left to the caller are exact in every case |
| HeaderChains.ZeroHashMatches | core/headerchain.go:436-443 | A concrete case: the zero hash above the head is answered with the genesis |
| CanonicalIndexes.CutAbove | core/headerchain.go:240-247 | Nothing is left from the given number on and nothing below changes |
| CanonicalIndexes.WriteBack | core/headerchain.go:248-260 | Writing back until the chains meet makes the index the path of the new head below the batch |
| CanonicalIndexes.Rewritten | core/headerchain.go:239-276 | Cut, way back and both runs together give exactly the path of the new head |
| BlockChains.BlockChain.Run | core/blockchain.go:1448-1585 | For any blocks in any order the transaction index stays exact for the head and total difficulty never falls; the whole invariant holds after the run if and only if no block of it, when its turn comes, is preferred while lower than the head and on its chain, and any other run stops after the first that is. Stored blocks and head are those of a replay on sets. Blocks never lower than the head or an earlier block are safe whatever the branches and coins |
| BlockChains.NeverLowerUnbroken | core/blockchain.go:2223-2231 | A run whose blocks are never lower than the head at the start or a block before leaves no stale number |
| BlockChains.BlockChain.Reorg | core/blockchain.go:2089-2234 | The collected chains are the exact branches above the highest common ancestor; afterwards the number index is exactly the path of the head of the moment and the transaction index exactly that of the new branch up to the parent of the new block |
| BlockChains.FindFork | core/blockchain.go:2144-2188 | Succeeds exactly when the database can follow both branches to a common block, and then returns the branches above the highest one |
| BlockChains.WalkDown | core/blockchain.go:2144-2157 | Reaches the height exactly when no ancestor on the way is missing |
| BlockChains.BranchAt | core/blockchain.go:2144-2188 | A branch lists exactly the ancestors above a height, highest first |
| BlockChains.BlockChain.WriteKnownBlock | core/blockchain.go:1424-1436 | The block becomes the head and its transactions are indexed exactly; number index and heads are exact if and only if the block is not lower than the head with its parent on the head's chain |
| BlockChains.BlockChain.WriteBlockWithState | core/blockchain.go:1448-1585 | The head moves exactly to a block of more total difficulty, or of the same at a lower number, or of the same number if the head is not to be preserved and the block is or the coin says so; difficulty never falls; the invariant holds if and only if the block is not preferred or not below the head on its own chain |
| BlockChains.HeavyBlockLeavesStaleNumber | core/blockchain.go:2223-2231 | A concrete case: one heavy block next to two light ones leaves a number above the new head in the index |
| BlockChains.BlockChain.WriteHeadBlock | core/blockchain.go:772-799 | One number and the block's transactions are indexed; the other heads follow exactly when the block was not canonical |
| BlockChains.BlockChain.WriteBranch | core/blockchain.go:2205-2216 | The new branch but its top is written, indexed and collected |
| BlockChains.LookupMoved | core/blockchain.go:2205-2222 | Writing the new branch and purging what only the old one had makes the index map a transaction to a number iff that block of the new branch contains it |
| BlockChains.LookupExtended | core/blockchain.go:772-799 | Indexing a block on top of the branch keeps it exact |
| BlockChains.HeadWritten | core/blockchain.go:2223-2231 | Writing a block over a chain that holds its parent gives its path if and only if the chain was not longer |
| BlockChains.TxDifference | core/types/transaction.go:426-441 | The transactions of the first list that are not in the second, in order and with their repeats |
| ChainIndexers.ChainIndexer.Interleave | core/chain_indexer.go:243-440 | In every interleaving of head events, queries and steps of the update loop, each read seeing any chain at all, stored section heads above the checkpoint stay linked |
| ChainIndexers.LastDecides | core/chain_indexer.go:422-440 | With the index the path of some head, the last section is canonical if and only if all above the checkpoint are, and then so is the checkpoint |
| ChainIndexers.ChainIndexer.Sections | core/chain_indexer.go:434-440 | What is returned above the checkpoint was canonical in full at the look that accepted its last head; a section is dropped only if its last head was not the canonical one at that look, the last one kept passed it, so none is dropped exactly if the checkpoint is reached or the first look passes |
| ChainIndexers.ChainIndexer.VerifyLastHead | core/chain_indexer.go:422-429 | Drops exactly the sections whose heads did not match at their look, and stops at the first that does |
| ChainIndexers.ChainIndexer.NewHead | core/chain_indexer.go:243-300 | A reorg drops exactly the sections that reach past the ancestor, save those of the checkpoint; a new head makes known exactly the confirmed sections, after the checkpoint was matched |
| ChainIndexers.ChainIndexer.Begin | core/chain_indexer.go:317-337 | A job starts only with unprocessed sections, at a count whose last head passed verification, with the head before it; only sections whose last head failed its look are dropped |
| ChainIndexers.ChainIndexer.ReadBlock | core/chain_indexer.go:397-412 | A block is taken exactly when it is present, numbered and linked to the one before, so a torn read ends the job |
| ChainIndexers.ChainIndexer.Finish | core/chain_indexer.go:348-368 | A section is stored exactly when it was read in full and the head it builds on is still on record; otherwise nothing is added; a refused one drops only sections whose last head failed its look |
| ChainIndexers.CommitKeeps | core/chain_indexer.go:350-353 | A commit that passes the re-check adds one linked section at the end |
| ChainIndexers.CanonicalBefore | core/chain_indexer.go:388-417 | If a linked section is canonical, so is the one before it |
| ChainIndexers.ChainIndexer.SetValidSections | core/chain_indexer.go:479-491 | Whatever the new count, exactly the heads from it on are gone and the count is stored |
| EvmContexts.HashCache.GetHash | core/evm.go:76-107 | Whatever was asked before, below the reference the hash of the true ancestor, or zero exactly if a header between what is cached and the ancestor is missing; zero from the reference on; the cache stays a prefix of the ancestor hashes |
| EvmContexts.EntryIs | core/evm.go:76-107 | The k-th ancestor hash is that of the header k + 1 below, and zero past the genesis |
| Ledgers.TransferConserves | core/evm.go:111-119 | A transfer keeps the sum of balances and moves exactly the amount, also to oneself |
| StateTransitions.StateTransition.TransitionDb | core/state_transition.go:271-342 | Executed if and only if the message is admitted and, once its gas is bought, can still pay the charge up front and the value. One that is not admitted changes nothing; one that fails later is refused with its gas bought and not given back. For an executed one the sum of balances falls by exactly gas used times base fee, by nothing before London, whichever accounts coincide, and the pool by exactly the gas used; with a fee cap at least the price the transfer check cannot fail. By balances: the sender pays gas limit times price and gets back what is left and refunded at that price, the coinbase gets gas used times the tip, nobody else is touched outside the EVM, and the nonce rises by one for a call and is left to the EVM for a creation |
| StateTransitions.SettledPaysOut | core/state_transition.go:307-349 | After the EVM exactly the sender and the coinbase are paid, the sender for what is left and refunded, the coinbase for what was used; the refund is capped |
| StateTransitions.EntryLaunches | core/state_transition.go:271-321 | The EVM starts with the gas limit paid by the sender at the price and no other balance changed, the nonce of the sender raised by one for a call and as it was for a creation |
| StateTransitions.ChargeTable | core/state_transition.go:118-156 | Intrinsic gas in numbers: 53000 or 21000, 4 per zero byte, 68 or 16 for any other, 2400 per address and 1900 per key |
| StateTransitions.CoinbaseIsPaid | core/state_transition.go:316-335 | A plain transfer before London moves exactly the price of its gas from sender to coinbase |
| StateTransitions.RefusedYetPaid | core/state_transition.go:282-300 | A concrete case: a plain transfer with one unit of gas too little is refused, and its sender and the pool are down by the gas it bought |
| StateTransitions.StateTransition.PreCheck | core/state_transition.go:214-256 | Passes exactly when no reason to refuse holds, and names one that does |
| StateTransitions.StateTransition.BuyGas | core/state_transition.go:192-212 | Pool and sender pay for all the gas or nothing happens |
| StateTransitions.StateTransition.RefundGas | core/state_transition.go:344-359 | The refund is the counter capped by the share of gas used, gas never exceeds what was bought, and the pool never overflows |
| StateTransitions.SettledWealth | core/state_transition.go:316-335 | Buying, refunding and tipping together cost exactly what is burnt |
| StateTransitions.PriceSplits | core/state_transition.go:331-334 | The effective price is tip plus base fee |
| StateTransitions.Affordable | core/state_transition.go:192-212 | Who can pay the cap and the value still has the value after paying the price |
| StateTransitions.Intrinsic | core/state_transition.go:118-156 | Refuses exactly when the exact data cost exceeds 64 bits; otherwise the exact cost modulo 64 bits |
| StateTransitions.Overflows | core/state_transition.go:140-149 | The division guard is exactly the overflow of the product |
| StateTransitions.GasPool.AddGas | core/gaspool.go:29-35 | Adds, where the caller proves that the panic cannot happen |
| StateTransitions.GasPool.SubGas | core/gaspool.go:39-45 | Takes the amount exactly when it is there |
| StateProcessors.Process | core/state_processor.go:59-93 | Processed if and only if every transaction, when its turn comes, has a sender, is admitted with the gas that is left and can run; otherwise the first that does not is named with a reason that holds. Then world and gas used are those of the messages applied in order, pool gas left and gas used add up to the block limit, receipts carry the prefix sums, the gas of each transaction and whether its execution failed, every transaction found its gas limit in the pool, and the balances fall by gas used times base fee over the block |
| StateProcessors.ApplyTransaction | core/state_processor.go:95-138 | Executed if and only if nothing stands against it, else refused for a reason that holds; the world and the gas are those of the message, the receipt carries gas used, running total and whether execution failed; the transfer check never fails |
| Feeds.Feed.Send | event/feed.go:128-190 | Under any schedule of readiness and removals every subscription that stays is served, a removed one at most once, nothing more than once for each subscription, also when a channel is subscribed twice; the count is the deliveries and the list a permutation of the initial one minus removals |
| Feeds.Feed.TrySends | event/feed.go:156-165 | After any outcomes the active prefix is exactly the unsent part |
| Feeds.Feed.Select | event/feed.go:169-181 | A removal or a delivery keeps the prefix exact and makes progress |
| Feeds.RoundSend | event/feed.go:228-232 | Swapping a served case behind the prefix keeps served and unserved apart |
| Feeds.RoundRemove | event/feed.go:171-177 | Removing a case, served or not, shifts both parts and keeps them apart |
| Feeds.RoundDone | event/feed.go:166-168 | With the prefix used up, each subscription that stayed was served exactly once and no more was delivered than subscribed, also with one of two subscriptions of a channel removed |
| Feeds.Feed.Delete | event/feed.go:223-225 | The list without the case, the rest in order |
| Feeds.Feed.Deactivate | event/feed.go:228-232 | The case and the last of the prefix swapped in place |
| Feeds.Feed.Find | event/feed.go:213-220 | The first index of the case, or -1 exactly when absent |
| Feeds.Feed.Remove | event/feed.go:103-124 | Exactly one subscription of the channel goes, from inbox or list |
| Feeds.Feed.Subscribe | event/feed.go:72-92 | The channel joins the subscribers |
| Feeds.Feed.Merge | event/feed.go:134-138 | The inbox is appended to the list and emptied |
| DerivationPaths.RoundTrip | accounts/hd.go:68-136 | Parsing the printed form gives the path back if and only if it is not empty, for all 32-bit components, hardened or not |
| DerivationPaths.Normalises | accounts/hd.go:68-136 | Whatever spelling a path was parsed from, its printed form means the same |
| DerivationPaths.RelativeRoundTrip | accounts/hd.go:68-136 | Without the leading m the components are appended to the root path |
| DerivationPaths.SpacesIgnored | accounts/hd.go:91-99 | White space around components does not change the meaning |
| DerivationPaths.TrimPad | accounts/hd.go:91-99 | Padding does not change the trim |
| DerivationPaths.NumberOfDecimal | accounts/hd.go:100-104 | A printed number reads back as itself: no digit is mistaken for a base prefix |
| DerivationPaths.NumberOfNumeral | accounts/hd.go:100-104 | A prefix selects base two, eight in three spellings, or sixteen, and the digits read back as the number |
| DerivationPaths.SplitJoin | accounts/hd.go:72-72 | Splitting undoes joining |
| DerivationPaths.ParseDerivationPath | accounts/hd.go:68-118 | Computes the meaning of the string, first error included |
| DerivationPaths.ToString | accounts/hd.go:122-136 | Computes the canonical form |
| DerivationPaths.Meaning | accounts/hd.go:68-118 | A parsed path is never empty and fits 32 bits |

## Left out

- The EVM, state tries, snapshots, trie garbage collection, consensus engines and block rewards: the EVM is a function
  assumed to keep the sum of balances and to return no more gas than it got; header, block and signature validation are
  preconditions or inputs.
- 64-bit wrap-around of transaction nonces, block numbers and total gas: numbers are unbounded except where a member says so.
- Storage detail: the freezer, receipts, fast sync, side chains kept without state, batches that fail, LRU caches, head
  markers on disk, and aborts during shutdown.
- Transaction pool: the journal, heartbeats (evictions take the set of silent accounts), events, gauges, prices of local
  transactions kept by tag, and the block walk that finds what a reset reinjects, which is a parameter.
- The lists inside the pool's tables as shared objects: an update in place is a new value stored under the same account.
- TxPools.TxPool.Reset: the early returns, taken when a block of the reorg or the state of the new head cannot be found, which
  keep the old state and go on to promote and demote; and which remote transactions a reinjection without room evicts.
- TxPools.TxPool.AddAll: without room, which of the remotes are evicted and the answer to a newcomer that is cheaper than some
  remote in one price order only, which hang on how the price heaps divide the remotes.
- TxPools.TxPool.AddTxs: the pool's lock is free between adding and promoting; nothing else happens there in the model.
- TxPools.TxPool.Reorg: which of several accounts over their allowance lose more when pending is truncated, beyond what
  `TruncatePending` says; and that an executable one is left exactly when it was stuck is stated for pools that need no
  truncation, that it is left only then for all.
- PricedLists.TxPricedList.Removed: the stale counter is a heuristic and nothing is claimed of its value.
- TxPools.TxPool.MakeRoom: the slots freed count a transaction again for every heap entry it has, because a heap may list one
  twice, so the slots in use afterwards can be over the limit.
- HeaderChains.HeaderChain.GetAncestor: the header cache that is keyed by hash alone; lookups check the number.
- SortedMap.TxSortedMap.FilterItems: removed transactions come keyed by nonce, because a Go map has no order.
- The scheduler's event queue, timers and the goroutines' memory model: a step is one select case, launch or end of a run.
- The second read of the canonical hash in `GetAncestor`, which guards against writers in between: one step has none.
- Chain indexer: children, throttling, a checkpoint added during a run, and failures of the backend's reset.
- Feed: type checks, the stored value of a case, and subscriptions that arrive during a send, which only touch the inbox.
- Networking, RPC, GraphQL, accounts other than derivation paths, command line tools: plumbing that would add easy members.
