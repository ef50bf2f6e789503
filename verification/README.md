# libp2p: verified models of its routing table, thread pool, hashes, codecs and protocols

This project models the parts of a C implementation of libp2p whose correctness does not show
from reading one function, and proves what they keep over whole runs. `dafny verify dfyconfig.toml`
checks everything.

| file | models |
|---|---|
| ThreadPool.dfy | the job queue, binary semaphore, counters and waiters of the thread pool, as a step relation over any number of threads |
| Options.dfy, Numbers.dfy, NodeIds.dfy | missing values, powers, positional numbers, 160-bit ids, XOR distance, the lowest 1 bit |
| RoutingTable.dfy | the DHT's sorted buckets: lookup, insertion, splitting, eviction, expiry |
| NearestIds.dfy, Search.dfy | bounded lists sorted by XOR distance; searches and announces |
| ClosestNodes.dfy, ClosestPeers.dfy | the packed closest-nodes reply; nearest peers from the peerstore |
| RateLimiter.dfy, Tokens.dfy, PeerStore.dfy | request limiter, announce tokens, stored peers |
| Sha1.dfy, Sha1Words.dfy | SHA-1 against FIPS 180-4; what its rotations, round functions and constants are as numbers and bits |
| Base58.dfy, Base32.dfy | the two text encodings against the numbers they spell |
| HashMap.dfy | the string map with bounded probing against a mathematical map |
| Secio.dfy | the secio handshake of two parties |
| Yamux.dfy | slots, frames and byte queues of a yamux session |

Code that changes state is modelled by classes and methods with loops, proved against functions
whose meaning is stated independently: the number that digits or bytes spell, a mathematical map,
the standard's definition, the set of nearest ids, the multiset of fresh peers. Concurrency in the
thread pool is a relation over single steps; reads are sequentially consistent and the pool is not
being destroyed. Uninterpreted functions stand for SHA-256, HMAC, signatures, key agreement, the
string hash, the token hash, the protobuf encoding of proposals and the test whether bytes are a
protocol message. Random numbers, clocks and received messages are inputs; the clock does not go
back. Bit operations on bytes are written as arithmetic with powers of two, except in SHA-1, which
uses bit vectors. Allocation succeeds, except in the hash map, where doubling may be refused.

## Where the code falls short

Where a property fails of the code, the condition under which it holds is proved as well; where a
comment and the code differ, the model follows the code.

- Two callers of `thpool_wait`: the last worker sends one signal, so of several sleepers all but one stay asleep (`ThreadPool.LastSignalFreesAllIff`, `ThreadPool.TwoWaitersCanBeForgotten`).
- `SHA1_Update` compares a 32-bit sum with a 64-bit length, so a chunk of 2^29 bytes or more always counts a carry (`Sha1.CountExactIff`).
- A put of a stored key after a removal can store it twice (`HashMap.Table.Put`, `HashMap.StaleValueReturns`).
- When a doubling is refused in the middle of another one, the entries not yet moved are lost (`HashMap.Table.Rehash`, `HashMap.Table.Put`, `HashMap.EntryIsLost`).
- With order 0, from colliding order hashes or from a proposal echoed to its sender, each side of secio takes its own first name and the second key as its own (`Secio.LeaderlessSelection`, `Secio.LeaderlessCanDisagree`, `Secio.Handshake`, `Secio.EchoHasNoLeader`, `Secio.EchoKeysDiffer`).
- The comment above `get_8` (crypto/encoding/base32.c:334-340) speaks of four characters; the code gathers eight.
- The base58 encoder writes the '1' characters for leading zero bytes over the caller's pointer to the buffer instead of into the buffer (crypto/encoding/base58.c:160), so it works if and only if no zero byte leads (`Base58.Encode`, `Base58.RoundTrip`).
- `libp2p_yamux_get_parent_channel_context` (yamux/yamux.c:23-31) returns NULL for every stream, so a received FIN closes the stream but sends nothing back and leaves the channel state alone.
- `yamux_get_session_stream` and the second search of `yamux_decode` also look at slots that are closed, so a stream id used twice can reach a channel that was reset (`Yamux.OpeningFrameArrivesIff`, `Yamux.ResetChannelIsReached`).

## Model

| member | source | states |
|---|---|---|
| `ThreadPool.StepKeepsInv` | utils/thread_pool.c:353-381 | every step of every submitter, worker and waiter keeps the pool's invariant: counter = counted workers, order of the queue, lock ownership, what waiters have seen, and announced work |
| `ThreadPool.RunKeepsInv` | utils/thread_pool.c:321-388 | the invariant holds after every interleaving of any length and any number of threads |
| `ThreadPool.JobsPulledOnceInOrder` | utils/thread_pool.c:438-495 | in every interleaving jobs are pulled in submission order, each at most once, and the queue holds exactly the ones not yet pulled |
| `ThreadPool.IdlePoolHasFinished` | utils/thread_pool.c:353-381 | with `num_threads_working` 0, every job pulled so far has finished, because a worker raises the counter before it pulls |
| `ThreadPool.MarkStays` | utils/thread_pool.c:197-203 | the number of jobs a waiter has to wait for is fixed at its call |
| `ThreadPool.WaitReturnsAfterEarlierJobs` | utils/thread_pool.c:197-203 | `thpool_wait` returns only after every job added before the call has finished, though it reads the queue length without the queue's lock |
| `ThreadPool.BusyWorkerMoves` | utils/thread_pool.c:353-381 | a worker that is not waiting for the semaphore can take its next step, unless another thread holds the lock that this step needs, and then that one can go on |
| `ThreadPool.QueuedJobsAreServed` | utils/thread_pool.c:530-555 | no lost wake-up: with jobs queued the semaphore is 1, or about to be raised, or taken by a worker that has not pulled yet; and the pool can take a step of its own |
| `ThreadPool.StepLowers` | utils/thread_pool.c:321-388 | every step that the pool takes by itself lowers a measure of what is queued, owed and under way |
| `ThreadPool.InternalRunsEnd` | utils/thread_pool.c:321-388 | a run of such steps is no longer than the measure at its start |
| `ThreadPool.UnfinishedPoolMoves` | utils/thread_pool.c:321-388 | while some submitted job has not finished, a pool with a thread can take such a step |
| `ThreadPool.RestsIffQuiet` | utils/thread_pool.c:321-388 | the pool can take no step of its own exactly when it is quiet; there is no other deadlock |
| `ThreadPool.PoolDrains` | utils/thread_pool.c:321-388 | left to itself from any reachable state, a pool with a thread takes at most as many steps as the measure says, whatever their order; it can take no further one exactly when it is quiet: all submitted jobs finished, every thread blocked on the semaphore, no lock held, every caller of `thpool_wait` returned or asleep |
| `ThreadPool.DrainingRun` | utils/thread_pool.c:321-388 | such a run to a quiet pool exists from every reachable state |
| `ThreadPool.AddedJobFinishes` | utils/thread_pool.c:188-194 | a job can be added whenever nobody holds `rwmutex`, and the pool by itself then finishes it |
| `ThreadPool.SingleWaiterIsNotForgotten` | utils/thread_pool.c:197-203 | a single sleeping, unsignalled waiter implies a queued job or a working thread |
| `ThreadPool.SingleWaiterReturns` | utils/thread_pool.c:197-203 | in every run with one waiter, however it went, that waiter has returned once the pool is at rest |
| `ThreadPool.WaitCanReturn` | utils/thread_pool.c:197-203 | from every state that a run with one waiter reaches, steps of the pool alone lead to the return of `thpool_wait` |
| `ThreadPool.LastSignalFreesAllIff` | utils/thread_pool.c:374-379 | the signal of the last working thread frees all sleeping waiters if and only if at most one slept |
| `ThreadPool.TwoWaitersCanBeForgotten` | utils/thread_pool.c:197-203 | a concrete run in which two callers of `thpool_wait` end with an idle pool and one of them asleep |
| `NodeIds.IdCmp` | routing/dht.c:413-418 | byte-wise comparison of ids is comparison of the 160-bit numbers they spell, and 0 only for equal ids |
| `NodeIds.XorCmp` | routing/dht.c:465-482 | deciding at the first differing byte compares the XOR distances to the reference as numbers, and gives 0 only for equal ids |
| `NodeIds.XorBits` | routing/dht.c:465-482 | a bit of the exclusive or is 1 exactly if just one of the two bits is |
| `NodeIds.DistanceIsMetric` | routing/dht.c:465-482 | XOR distance is zero just between equal ids, symmetric, and satisfies the triangle inequality |
| `NodeIds.DistanceInjective` | routing/dht.c:465-482 | two ids at the same XOR distance from a third are equal |
| `NodeIds.LowBit` | routing/dht.c:421-437 | -1 for the zero id, otherwise the position p for which the value is an odd multiple of 2^(159-p) |
| `NodeIds.DepthFromLowBits` | routing/dht.c:566-571 | for an aligned range the larger low bit of its two ends, plus one, is its depth; the end of the id space counts as -1 |
| `NodeIds.SetBitAddsHalf` | routing/dht.c:576-577 | setting the bit just below an aligned prefix adds exactly half of the range |
| `NodeIds.LowBitsStayInRange` | routing/dht.c:595-599 | any bits below an aligned prefix stay inside the range of that prefix |
| `RoutingTable.BucketDepth` | routing/dht.c:569-571 | MAX(bit1, bit2) + 1 is the depth of the bucket |
| `RoutingTable.BucketMiddle` | routing/dht.c:565-579 | the exact midpoint of the bucket's range, both halves aligned; refused exactly for a range of one id |
| `RoutingTable.BucketRandom` | routing/dht.c:581-601 | lies inside its bucket for every random input |
| `RoutingTable.HalvesAreAligned` | routing/dht.c:732-768 | the two halves of an aligned power-of-two range are aligned power-of-two ranges |
| `RoutingTable.CoverUnique` | routing/dht.c:484-491 | the buckets of a partition cover every id once |
| `RoutingTable.OneBucketLookupAgrees` | routing/dht.c:527-544 | looking only in the bucket that covers an id agrees with scanning the whole table |
| `RoutingTable.IdsAreUnique` | routing/dht.c:773-902 | two entries anywhere in the table with one id are the same entry, and it is not our own id |
| `RoutingTable.FindBad` | routing/dht.c:822-835 | the first node pinged three times without reply and not pinged in the last 15 seconds |
| `RoutingTable.FindIn` | routing/dht.c:537-543 | a node with the id if the list has one, the end of the list exactly otherwise |
| `RoutingTable.FindDubious` | routing/dht.c:838-860 | tells whether any node is dubious and picks the first dubious one not pinged in the last 15 seconds |
| `RoutingTable.GoodUntil` | routing/dht.c:618-626 | a node that replied and was heard of later is good until 15 minutes after the last message and two hours after the reply, and not longer |
| `RoutingTable.BadAfterThree` | routing/dht.c:670-679 | a node that replied and then leaves three requests unanswered is bad from 15 seconds after the third, and is purged after the fourth, no earlier |
| `RoutingTable.FullOwnBucketIsWide` | routing/dht.c:837-878 | a full bucket that covers our own id spans at least 16 ids |
| `RoutingTable.SplitHalvesSpan` | routing/dht.c:874-878 | after a split the id to be placed is covered by exactly half the former range |
| `RoutingTable.ExpireBucket` | routing/dht.c:910-936 | keeps exactly the nodes with fewer than four unanswered pings, in order, with the counter lowered by as many as were dropped, and the cached address used up only if something was dropped |
| `RoutingTable.Table.constructor` | routing/dht.c:1670-1749 | one empty bucket that covers all 2^160 ids |
| `RoutingTable.Table.FindBucket` | routing/dht.c:493-508 | the one bucket whose range covers the id |
| `RoutingTable.Table.InBucket` | routing/dht.c:486-491 | true exactly if the bucket's range covers the id |
| `RoutingTable.Table.FindNode` | routing/dht.c:527-544 | finds a node exactly if the whole table has one with this id |
| `RoutingTable.Table.InsertNode` | routing/dht.c:603-616 | one more entry in front of the bucket that covers its id and nothing else, for every node; the table stays well formed if and only if the id is new, not our own, and the bucket had room |
| `RoutingTable.Table.SplitBucket` | routing/dht.c:732-768 | fails exactly for a one-id range; otherwise two equal halves in its place with the time of the bucket and no cached address, all nodes kept and each in the half that covers it, other buckets untouched |
| `RoutingTable.Table.NewNode` | routing/dht.c:773-902 | terminates (the range of the id's bucket halves at each retry); the new table is the old one with the known entry renewed, the first bad entry replaced, the node prepended, or its address kept, whichever the bucket calls for; the full bucket of our own id is split if all its nodes are good or it is the only bucket; an id is refused only with 8 nodes in its bucket, none of them bad, and, if our own id belongs there, more than one bucket and a node that is not good; every new bucket is one more halving that eight nodes and our own id made necessary; no other range changes; other entries stay, except pinged dubious and replaced bad ones; a new entry has the address and the confirmed times; `mybucket_grow_time` is set exactly for a new id in our own bucket |
| `RoutingTable.Table.Place` | routing/dht.c:789-902 | the same guarantees from the point where the bucket is known |
| `RoutingTable.Table.Refresh` | routing/dht.c:794-809 | the known entry, and nothing else, is renewed: address and times as confirmed, unless merely heard of and seen in the last 15 minutes |
| `RoutingTable.Table.Evict` | routing/dht.c:822-835 | the first bad entry is replaced by the new one in its place; nothing else changes |
| `RoutingTable.Table.Append` | routing/dht.c:889-901 | a new node in front of a bucket with room, counted |
| `RoutingTable.Table.MakeRoom` | routing/dht.c:837-887 | pings the first quiet dubious node, then splits and retries exactly when our own id belongs in the bucket and all its nodes are good or it is the only bucket, and otherwise keeps the address and refuses |
| `RoutingTable.Table.SplitOwn` | routing/dht.c:874-877 | splitting the full bucket that covers our own id cannot fail and halves its range |
| `RoutingTable.Table.PingDubiousIn` | routing/dht.c:837-860 | pings exactly the first dubious node not pinged in the last 15 seconds, if there is one, and changes nothing else; tells whether any node is dubious |
| `RoutingTable.Table.RequestSent` | routing/dht.c:670-679 | the node's entry, if it has one, gets one more ping now, and the cached candidate is used up from the third ping on; nothing else changes |
| `RoutingTable.Table.Discredit` | routing/dht.c:690-698 | a blacklisted node's entry, if it has one, is left with four pings, so that the next expiry drops it; nothing else changes but the cached candidate |
| `RoutingTable.Table.ExpireBuckets` | routing/dht.c:904-941 | each bucket keeps exactly the nodes with fewer than four unanswered pings, counted right |
| `RoutingTable.OnlyLearntNodes` | routing/dht.c:773-941 | in every run every node of the table was learnt, from an address that is not refused, and is not ourselves |
| `RoutingTable.Run` | routing/dht.c:773-941 | every run of insertions, splits, pings, blacklistings, expiries and clock ticks goes from the initial bucket through one step of that kind for each event, with all that `NewNode` promises for each node learnt; at every moment the ranges are aligned, partition the id space and hold every node in its place, ids are distinct and never our own, counts right and at most 8; at the end every node was learnt and one-bucket lookup is right for every id |
| `NearestIds.InsertKeepsSorted` | routing/dht.c:964-1022 | an offer keeps the candidate list strictly increasing in XOR distance and within its limit |
| `NearestIds.InsertKeepsNearest` | routing/dht.c:964-1022 | the nearest of what was offered, offered one more id, become the nearest of both |
| `NearestIds.OffersAreNearest` | routing/dht.c:964-1022 | after any sequence of offers the list is exactly the nearest of all of them |
| `NearestIds.NearestIsUnique` | routing/dht.c:964-1022 | that list is determined by the set of offers, so their order does not matter |
| `NearestIds.RemovalKeepsSorted` | routing/dht.c:1024-1031 | removing an entry keeps order and distinctness and leaves no copy of its id |
| `Search.SearchState.InsertSearchNode` | routing/dht.c:964-1022 | refused exactly for another address family or an id beyond 14 nearer ones; otherwise the entry is found or placed, and updated with time, token and reply; nothing else changes |
| `Search.OfferRecords` | routing/dht.c:1001-1022 | what an accepted offer records: a reply renews times and counter, a token of fewer than 40 bytes replaces the former one, an acknowledgement stays, a new entry starts with nothing; all other entries stay in place or move by one |
| `Search.SearchState.MakeRoomAt` | routing/dht.c:987-1000 | in-place shift: the entry spliced in, the last of a full list dropped |
| `Search.SearchState.InsertSearchBucket` | routing/dht.c:1205-1215 | every node of the bucket is offered in turn |
| `Search.CandidatesAreNearest` | routing/dht.c:964-1169 | in every run of offers, bucket offers, steps, flushes and blacklistings the candidates are sorted, distinct and at most 14; without removals they are exactly the 14 nearest of all ids offered in any of these ways |
| `Search.Run` | routing/dht.c:964-1169 | every run on one search goes as its operations say, one after the other |
| `Search.SearchState.FlushSearchNode` | routing/dht.c:1024-1031 | exactly the entry at the index disappears; the rest stays sorted and distinct |
| `Search.SearchState.Blacklist` | routing/dht.c:699-706 | no copy of the id is left although the index advances after each shift; all other entries stay in order |
| `Search.RemovedOnce` | routing/dht.c:699-706 | in a list without duplicates one removal removes every copy |
| `Search.SearchState.SendGetPeers` | routing/dht.c:1055-1085 | asks the given entry exactly if it can be asked, or the last one that can; nothing else changes |
| `Search.SearchState.CheckReplies` | routing/dht.c:1095-1106 | true exactly if every entry that has not ignored three requests, and has fewer than eight such entries before it, has replied |
| `Search.FirstEightRepliedMeans` | routing/dht.c:1095-1106 | the counting of the loop looks at exactly the entries whose number of live predecessors is below eight |
| `Search.SearchState.Announce` | routing/dht.c:1108-1144 | announces to the first eight live candidates; reports exactly whether all of them had acknowledged or gave no token |
| `Search.FirstEightAckedMeans` | routing/dht.c:1108-1141 | so does the check for acknowledgements; an entry without a token counts as acknowledged |
| `Search.AnnouncedMeans` | routing/dht.c:1108-1144 | an announcement counts one more request, sent now, for exactly those of these entries that owe an acknowledgement, and marks those without a token; nothing else changes |
| `Search.SearchState.AskThree` | routing/dht.c:1152-1158 | at most three requests, in list order |
| `Search.RequestedMeans` | routing/dht.c:1152-1158 | a round of requests changes exactly the entries that can be asked and have fewer than three such entries before them, by one more request sent now |
| `Search.SearchState.Step` | routing/dht.c:1089-1169 | one step: done or announces when the first eight replied, requests at most every 15 seconds otherwise; nothing else changes |
| `Search.StepsAreSpaced` | routing/dht.c:1149-1158 | within 15 seconds of a step that sent something another one changes nothing, unless all have replied since |
| `Search.RequestedProgress` | routing/dht.c:1152-1158 | if one of the first eight live candidates has not replied and nothing was sent lately, the sum of (3 - pinged) shrinks |
| `Search.AnnouncedKeeps` | routing/dht.c:1111-1143 | announcing never raises that sum, and lowers it while some acknowledgement is missing |
| `Search.ExhaustedIsDone` | routing/dht.c:1095-1143 | once the sum is 0 every check passes |
| `Search.StepProgress` | routing/dht.c:1089-1169 | a step at a quiet time finishes the search or lowers the sum |
| `Search.FinishesWithin` | routing/dht.c:1089-1169 | steps at times more than 15 seconds apart, more of them than the sum, end in `done` with the same candidates |
| `Search.SearchState.RunSteps` | routing/dht.c:1089-1169 | the steps are taken one after the other until done; without further replies, 3 numnodes + 1 steps, each more than 15 seconds after what was sent before, reach `done`, for searches and announces alike |
| `ClosestNodes.MoveUp` | routing/dht.c:2590-2592 | a memmove to a higher, overlapping place copies the old bytes |
| `ClosestNodes.UnpackPacked` | routing/dht.c:2594-2603 | a record tells the id, address and port of its node |
| `ClosestNodes.PackLayout` | routing/dht.c:2595-2606 | a record is the id, the address of 4 or 16 bytes, and the port with its high byte first |
| `ClosestNodes.InsertClosestNode` | routing/dht.c:2564-2609 | the packed records become the list with the new record spliced in at its distance, cut to 8, every record intact |
| `ClosestNodes.InsertRecIds` | routing/dht.c:2564-2609 | on ids that is one offer to the nearest eight, and every record was there before or is the new one |
| `ClosestNodes.BufferClosestNodes` | routing/dht.c:2611-2622 | the buffer describes the nearest of what was considered and of the good nodes of this bucket |
| `ClosestNodes.CandidatesAre` | routing/dht.c:2639-2662 | a node is considered exactly if it is good and in the bucket of the target or next to it |
| `ClosestNodes.ClosestNodesReply` | routing/dht.c:2624-2669 | the reply holds exactly the at most 8 nearest good nodes of the target's bucket and its two neighbours, nearest first, no duplicates, each as an intact 26- or 38-byte record |
| `ClosestPeers.NothingFarther` | routing/dht_utils.c:51-54 | twenty bytes 0xFF are the largest distance, and only they |
| `ClosestPeers.ScanDistances` | routing/dht_utils.c:81-82 | the first place whose distance is strictly larger |
| `ClosestPeers.ShiftDown` | routing/dht_utils.c:83-89 | both parallel arrays shifted by one from that place, the worst entry dropped |
| `ClosestPeers.OfferPeer` | routing/dht_utils.c:76-96 | the parallel arrays hold the list after one more peer, and `found` is its length |
| `ClosestPeers.OfferKeepsBest` | routing/dht_utils.c:76-96 | one more peer keeps the list the best choice, counting every peer as chosen or rightly omitted |
| `ClosestPeers.FindClosestPeers` | routing/dht_utils.c:32-109 | chosen and omitted peers are the non-local ones; the chosen are nearest first; no omitted peer is strictly closer than a chosen one; fewer than asked only if every omitted peer is at the all-0xFF distance |
| `ClosestPeers.ConsideredAre` | routing/dht_utils.c:60-75 | every entry that is present and not local is considered as often as the store has it, and no other |
| `RateLimiter.Limiter.TokenBucket` | routing/dht.c:1800-1816 | the new bucket and the verdict, with the token count always within 0..400 |
| `RateLimiter.OkAlways` | routing/dht.c:1800-1816 | over every run with a clock that does not go back the token count stays within 0..400 |
| `RateLimiter.WithinBudget` | routing/dht.c:1800-1816 | what is admitted in a window is bounded by tokens held, one refill for earlier time, and 100 a second |
| `RateLimiter.AdmittedSinceStart` | routing/dht.c:1727-1728 | at most 400 + 100 (now - start) requests since the start |
| `RateLimiter.AdmittedInWindow` | routing/dht.c:1800-1816 | at most 800 + 100 (t2 - t1) requests in any window of any run |
| `RateLimiter.WindowBoundIsMet` | routing/dht.c:1800-1816 | the window bound cannot be lowered: 800 requests in one instant are admitted four quiet seconds after the start |
| `RateLimiter.BurstExactly` | routing/dht.c:1800-1816 | of any number of requests in one instant exactly as many are admitted as there are tokens, plus one refill of 100 a second, at most 400, for the time since the last |
| `RateLimiter.SpacedAreAdmitted` | routing/dht.c:1800-1816 | requests that leave a second between them are all admitted |
| `Tokens.Secrets.RotateSecrets` | routing/dht.c:1452-1466 | the drawn secret is the current one, the former one is kept once, and the next rotation is at least 900 and less than 2700 seconds away |
| `Tokens.Secrets.TokenMatch` | routing/dht.c:1497-1511 | accepted exactly if one of the two secrets makes this token for this address |
| `Tokens.Secrets.Periodic` | routing/dht.c:2195-2197 | rotation exactly when its time has come, nothing otherwise |
| `Tokens.SecretStays` | routing/dht.c:1452-1466 | a secret is the current one or the one before it until 900 seconds after any event at which it was current |
| `Tokens.SecretIsReplaced` | routing/dht.c:2195-2197 | in every run a freshly drawn secret replaces the current one within 2700 seconds of any event, at the first event after that at the latest |
| `Tokens.TokenIsHonoured` | routing/dht.c:2147-2197 | in every run a token issued at t is accepted from its address at every time before t + 900 |
| `Tokens.AcceptedTokenIsOurs` | routing/dht.c:1497-1511 | an announcement is accepted exactly if its token is the hash of its address under one of the last two secrets |
| `Tokens.Run` | routing/dht.c:2147-2197 | every message of every run is answered under the current secret and the one before it, as they are after the rotations so far |
| `PeerStore.Store.FindStorage` | routing/dht.c:1331-1342 | the entry of the hash, found exactly if the store has it |
| `PeerStore.Store.StorageStore` | routing/dht.c:1344-1410 | returns and leaves what the map from hashes to places and times says: refresh, append, new hash, or nothing at the limits of 2048 peers and 16384 hashes; hashes and places stay distinct, numpeers <= maxpeers <= 2048, numstorage = length |
| `PeerStore.StoredSetsTime` | routing/dht.c:1344-1410 | an announcement sets the time of its own place, new or stored already, and of no other, unless a limit is reached; the result tells which it was |
| `PeerStore.ExpirePeers` | routing/dht.c:1416-1425 | despite swap-with-last, what is left is exactly the multiset of peers refreshed in the last 32 minutes |
| `PeerStore.Store.ExpireStorage` | routing/dht.c:1412-1450 | every hash keeps its fresh peers, exactly the emptied hashes are unlinked, order and limits are kept |
| `PeerStore.ExpiredView` | routing/dht.c:1412-1450 | as a map, exactly the places heard of in the last 32 minutes remain |
| `PeerStore.ExpiryKeeps` | routing/dht.c:1412-1450 | a place is kept exactly if its time lies in the last 1920 seconds |
| `PeerStore.TimesAreLast` | routing/dht.c:1331-1450 | in every run the time kept for a place is that of its last announcement |
| `PeerStore.Run` | routing/dht.c:1331-1450 | after every run of stores and expiries the list is within its limits and means the same as the map updated by the same run |
| `Sha1.SwapIsBigEndian` | crypto/sha1.c:110-112 | the two masked rotations turn a little-endian word into the big-endian one |
| `Sha1.MixIsF` | crypto/sha1.c:119-124 | the Boolean expressions of the macros are Ch, Parity and Maj of section 4.1.1 of FIPS 180-4 |
| `Sha1.MacroIsRound` | crypto/sha1.c:119-124 | a macro call on renamed registers is one step of section 6.1.2 |
| `Sha1.NextWordIsW` | crypto/sha1.c:116-117 | the 16-word window gives the word of the 80-word schedule |
| `Sha1.Rounds` | crypto/sha1.c:165-185 | the 80 calls compute 80 steps of the standard and leave the last 16 schedule words in the block |
| `Sha1.TransformExact` | crypto/sha1.c:140-196 | the compression function of the standard, and the block overwritten with schedule words 64 to 79 |
| `Sha1.CountExactIff` | crypto/sha1.c:221-223 | the two-word counter stays exact across an update if and only if the chunk is shorter than 2^29 bytes or its bit length carries out of the low word |
| `Sha1.Context.constructor` | crypto/sha1.c:199-209 | the initial hash value, an empty message and a zero counter |
| `Sha1.Context.Count` | crypto/sha1.c:221-223 | the counter after `len` bytes; its low word is always right, the whole one for chunks below 2^29 bytes |
| `Sha1.Context.HashInPlace` | crypto/sha1.c:227-229 | the loop over whole blocks of the caller's data, hashed where they lie |
| `Sha1.Context.Update` | crypto/sha1.c:212-238 | absorbs exactly the given bytes, keeps the counter exact for chunks below 2^29 bytes, and overwrites only the caller's full blocks |
| `Sha1.ZerosLeft` | crypto/sha1.c:252-254 | the padding loop's test is met after exactly the zero bytes of section 5.1.1 |
| `Sha1.LengthFromHalves` | crypto/sha1.c:247-250 | the eight bytes spell the message length in bits, modulo 2^64 |
| `Sha1.Context.AddPadding` | crypto/sha1.c:251-254 | the 1 bit and exactly the zeros that leave eight bytes of a block |
| `Sha1.Context.Final` | crypto/sha1.c:241-271 | the FIPS 180-4 digest of everything absorbed; the context is wiped |
| `Sha1.HashChunks` | crypto/sha1.c:199-271 | for every message and every cut into chunks below 2^29 bytes, Init, Update for each and Final give the FIPS 180-4 digest of the concatenation |
| `Sha1Words.RotationsAreNumbers` | crypto/sha1.c:99 | each rotation that occurs is multiplication of the number that the word spells by a power of two modulo 2^32, with what overflows added at the low end |
| `Sha1Words.RoundFunctionBits` | crypto/sha1.c:119-124 | bit by bit, Ch chooses by its first argument, Parity is the sum modulo 2, Maj the majority |
| `Sha1Words.RoundFunctionOf` | crypto/sha1.c:119-124 | rounds 0 to 19 use Ch, 40 to 59 Maj, the others Parity |
| `Sha1Words.Xor4Bit` | crypto/sha1.c:116-117 | a bit of a schedule word before its rotation is the parity of four bits |
| `Sha1Words.AddUndoes` | crypto/sha1.c:187-192 | addition to the hash value undoes subtraction modulo 2^32 |
| `Sha1Words.ConstantsAreRoots` | crypto/sha1.c:119-124 | the four constants are the whole parts of 2^30 times the square roots of 2, 3, 5 and 10 |
| `Sha1Words.InitialBytes` | crypto/sha1.c:199-209 | the bytes of the initial hash value count the hexadecimal digits up, down, and from f0 to c3 |
| `Sha1Words.BigEndianNumber` | crypto/sha1.c:110-112 | a loaded word spells the number that its four bytes spell, most significant first |
| `Sha1Words.WordBytesInvert` | crypto/sha1.c:256-259 | the four bytes written for a word give the word back |
| `Sha1Words.LengthBytesNumber` | crypto/sha1.c:247-250 | the eight length bytes are the digits in base 256 of the bit length |
| `Base58.AlphabetInverts` | crypto/encoding/base58.c:13-24 | the digit table inverts the alphabet |
| `Base58.AlphabetIs` | crypto/encoding/base58.c:13-24 | the alphabet is letters and digits without 0, O, I and l, in the order of their codes |
| `Base58.BufferSuffices` | crypto/encoding/base58.c:138-140 | 256^n < 58^(138 n / 100 + 1) for every n, so the carry loop never leaves the buffer |
| `Base58.PushByte` | crypto/encoding/base58.c:142-148 | the digit buffer becomes 256 times its value plus the byte, without running past its front |
| `Base58.EncodeDigits` | crypto/encoding/base58.c:134-148 | for every input, the base-58 digits of its big-endian value |
| `Base58.Encode` | crypto/encoding/base58.c:127-170 | for every input: the text that the bytes should become, if it fits and no zero byte leads; otherwise the exact size needed, or the caller's pointer is overwritten where the leading ones should go |
| `Base58.EncodingIsUnique` | crypto/encoding/base58.c:127-170 | the bytes determine their encoding: a one for every leading zero byte, then the shortest spelling of the number |
| `Base58.EncodingFits` | crypto/encoding/base58.c:134-154 | no encoding needs more than the digits that the encoder reserves and the leading ones |
| `Base58.MaskLosesNothing` | crypto/encoding/base58.c:69-71 | six bits hold the carry of a 32-bit limb times 58 |
| `Base58.PushDigit` | crypto/encoding/base58.c:67-72 | the limbs become 58 times their value plus the digit, less the carry out |
| `Base58.FitsIff` | crypto/encoding/base58.c:73-82 | the two overflow tests together ask exactly whether the number fits the output |
| `Base58.PushText` | crypto/encoding/base58.c:58-83 | stops exactly at a character outside the alphabet or when the number no longer fits; otherwise the limbs hold the number |
| `Base58.WriteBytes` | crypto/encoding/base58.c:85-103 | the last bytes of the limbs spell the same number |
| `Base58.Decode` | crypto/encoding/base58.c:34-117 | succeeds exactly if every character is a digit and the number fits; the bytes spell it, and the size is corrected by leading zeros and ones |
| `Base58.DecodeEncoding` | crypto/encoding/base58.c:34-117 | decoding an encoding into a buffer of the original length returns the original bytes and length, for every input, also with leading zero bytes |
| `Base58.RoundTrip` | crypto/encoding/base58.c:34-170 | encoding and decoding, with room enough, returns the original bytes if and only if the input does not start with a zero byte |
| `Base32.AlphabetInverts` | crypto/encoding/base32.c:104-105 | the digit table inverts the alphabet |
| `Base32.AlphabetIs` | crypto/encoding/base32.c:104-105 | the alphabet is the capital letters and then 2 to 7 |
| `Base32.WeightsArePowers` | crypto/encoding/base32.c:47-49 | the weights of the characters and bytes of a group are powers of 32 and 256, and n bytes take (8n + 4) / 5 characters |
| `Base32.EncodeBlock` | crypto/encoding/base32.c:107-158 | the shifts of the encoder give the five-bit parts of the group's 40-bit number, then padding, as far as there is room |
| `Base32.Encode` | crypto/encoding/base32.c:100-164 | the encoding of section 6 of RFC 4648, as much as fits, and a zero if there is room for it |
| `Base32.EncodedLength` | crypto/encoding/base32.c:47-49 | the encoding has BASE32_LENGTH characters |
| `Base32.GroupRoundTrip` | crypto/encoding/base32.c:395-485 | an encoded group is valid and its bytes are the original ones, for one to five bytes |
| `Base32.RoundTrip` | crypto/encoding/base32.c:100-164 | decoding an encoding returns the input, for every length |
| `Base32.Decode8` | crypto/encoding/base32.c:395-485 | accepts exactly a run of digits that ends a byte followed by nothing but padding; writes the whole bytes of the digits it saw, as far as there is room |
| `Base32.DecodeGroups` | crypto/encoding/base32.c:525-538 | decodes groups until one fails, and knows what was written before the failed attempt |
| `Base32.DecodeUnit` | crypto/encoding/base32.c:505-583 | one-shot decoding without a context: succeeds exactly on a sequence of valid groups, with its bytes, or the bytes before the fault |
| `Base32.Context.Get8` | crypto/encoding/base32.c:341-379 | the next eight characters that are not newlines, waiting ones first; or all that there are, left waiting |
| `Base32.Context.Decode` | crypto/encoding/base32.c:505-583 | decodes the whole groups of what waited and the newline-free input, and keeps the rest; an empty input succeeds exactly if nothing waits |
| `Base32.FeedTwo` | crypto/encoding/base32.c:505-583 | feeding a text in two parts is feeding it at once |
| `Base32.DecodeChunks` | crypto/encoding/base32.c:505-583 | newline-wrapped text fed to a fresh context in any non-empty chunks and a final flush succeeds exactly when the newline-free text decodes in one go, with the same bytes; in particular for every wrapped encoding |
| `HashMap.Table.constructor` | hashmap/hashmap.c:28-46 | an empty table of 256 slots |
| `HashMap.StopFindsKey` | hashmap/hashmap.c:289-318 | eight probes find a key exactly when it is stored |
| `HashMap.StopIsRightUnlessShadowed` | hashmap/hashmap.c:204-213 | the slot a put picks is wrong exactly if the key is stored behind a free slot of its chain |
| `HashMap.Table.HashIndex` | hashmap/hashmap.c:187-216 | the first free or matching slot of the chain, or none if the table is half full or the chain is |
| `HashMap.IndexIsFirst` | hashmap/hashmap.c:187-216 | a put finds a slot exactly if fewer than half of the slots are in use and one of the eight slots from the hash on is free or holds the key, and then takes the first of them |
| `HashMap.Table.Put` | hashmap/hashmap.c:258-284 | the map with the key bound to the value, if no free slot precedes the stored key in its chain, and a key stored twice if one does; out of memory only if the table cannot be doubled, and then the map is whole if and only if every doubling that this put asks for is completed or refused at once; chains, counts and limits kept |
| `HashMap.Table.Rehash` | hashmap/hashmap.c:218-256 | a table at least twice as large with the same map and no holes, across nested doublings; when memory runs out, the map is whole if and only if the first doubling is the one refused |
| `HashMap.Table.Get` | hashmap/hashmap.c:286-318 | found exactly if stored, with its value; of two copies the first in the chain |
| `HashMap.Table.Remove` | hashmap/hashmap.c:348-383 | the map without the key; missing exactly if it was not stored |
| `HashMap.Run` | hashmap/hashmap.c:258-383 | every history in which no stored key is put again after a removal gives the replies of a mathematical map, until a doubling is refused by the allocator or would reach 2^31 slots |
| `HashMap.StaleValueReturns` | hashmap/hashmap.c:204-207 | the history that is excluded: after a removal, a second put of a stored key lets its old value come back |
| `HashMap.RefillFails` | hashmap/hashmap.c:241-250 | the keys that went round the end of the table are put again first and leave no place for one that came before them |
| `HashMap.EntryIsLost` | hashmap/hashmap.c:241-250 | sixteen puts with an allocator that grants 512 slots but not 1024: the last is refused and an earlier entry is gone |
| `Secio.BytesCompare` | secio/secio.c:162-170 | strings of one length compare like the numbers they spell |
| `Secio.DetermineOrder` | secio/secio.c:196-203 | who leads: the side whose key, hashed with the other side's nonce, gives the larger number; nobody exactly if the two hashes are equal |
| `Secio.OrdersAreOpposite` | secio/secio.c:196-203 | the two sides get opposite orders, 0 exactly if the hashes collide |
| `Secio.OrderHashTells` | secio/secio.c:196-203 | with a hash free of collisions the order hash determines key and nonce |
| `Secio.NobodyLeadsIff` | secio/secio.c:196-203 | then nobody leads exactly if both sides have the same key and nonce |
| `Secio.SplitList` | secio/secio.c:211-236 | the non-empty names between commas, up to the end of the C string |
| `Secio.SplitJoined` | secio/secio.c:211-236 | splitting undoes joining with commas |
| `Secio.SelectBest` | secio/secio.c:248-294 | the first name of the leader's list that the follower has, or nothing if there is none |
| `Secio.SelectionsAgree` | secio/secio.c:248-294 | the two sides select the same name, or neither finds one |
| `Secio.LeaderlessSelection` | secio/secio.c:255-261 | with order 0 the two sides agree if and only if their first names are the same |
| `Secio.LeaderlessCanDisagree` | secio/secio.c:255-261 | concrete lists for which they do not |
| `Secio.LeaderlessKeys` | secio/secio.c:1267-1274 | with order 0 both sides take the second key as their own, so the keys cross only if there is one key |
| `Secio.EchoHasNoLeader` | secio/secio.c:196-203 | a proposal sent back to its sender leaves nobody to lead, without any collision |
| `Secio.EchoKeysDiffer` | secio/secio.c:456-480 | an input for which the two keys differ |
| `Secio.ChoicesAgree` | secio/secio.c:1156-1167 | from proposals whose order hashes differ both sides choose the same curve, cipher and hash, or both fail |
| `Secio.StretchKeys` | secio/secio.c:367-503 | the two keys are consecutive parts of the HMAC key stream, with the sizes of the cipher; refused exactly for a cipher other than AES-128, AES-256 and Blowfish |
| `Secio.CutIsUnique` | secio/secio.c:456-480 | the two keys are determined by cipher and secret alone |
| `Secio.StreamBlock` | secio/secio.c:429-452 | block k of the key stream hashes the k-th running hash followed by the seed, and each running hash is the hash of the one before |
| `Secio.KeysAt` | secio/secio.c:456-480 | the place of each initial vector, cipher key and MAC key in the key stream |
| `Secio.SeedSpells` | secio/secio.c:374 | the seed is the bytes of `key expansion` |
| `Secio.Session.Negotiate` | secio/secio.c:1117-1167 | fails exactly on a nonce that is not 16 bytes or when some list has no common name; otherwise order, nonce and choice are set |
| `Secio.Session.MakeExchange` | secio/secio.c:1173-1191 | signs our proposal, theirs and our ephemeral key without its first byte |
| `Secio.Session.Conclude` | secio/secio.c:1229-1286 | verifies their proposal, ours and their ephemeral key; takes the keys in the order of the sides; fails exactly on a bad signature, no shared secret, or an unknown cipher or hash |
| `Secio.SignedParts` | secio/secio.c:1180-1191 | both proposals and the ephemeral key have their own place in the signed bytes, in this order |
| `Secio.OtherKeyIsRejected` | secio/secio.c:1235-1248 | if a signature is accepted for the signed message alone, a packet with another ephemeral key than the signed one is rejected |
| `Secio.BothSawTheSame` | secio/secio.c:1235-1248 | an accepted packet means that both sides saw the same bytes of both proposals and the key, and the same three parts if the proposals kept their lengths |
| `Secio.Handshake` | secio/secio.c:1060-1286 | for any two honest parties: each side's success is determined by the nonces, the common names, the cipher, the hash and the secret; then it has verified exactly the bytes the other side signed, and its keys are cut from the common secret; with a leader both succeed or both fail, with opposite orders, the leader's first common choice, and each one's local key the other's remote key; without one they fit together if and only if their first names agree and the two keys coincide |
| `Yamux.ThreadsafeBuffer.Peek` | utils/threadsafe_buffer.c:43-55 | a prefix of the queue as long as asked or available |
| `Yamux.ThreadsafeBuffer.Read` | utils/threadsafe_buffer.c:65-95 | as many bytes from the front as asked or available; the others stay, in order |
| `Yamux.ThreadsafeBuffer.Write` | utils/threadsafe_buffer.c:104-123 | the queue with the bytes at its end |
| `Yamux.Session.constructor` | yamux/session.c:33-72 | no slot live, ids odd for a client and even for a server |
| `Yamux.Session.PickSlot` | yamux/stream.c:48-70 | the first slot that is not live, or the next one, or none exactly if every slot is live |
| `Yamux.Session.ChannelNew` | yamux/stream.c:32-108 | a new stream in that slot with an empty queue of its own; every other slot unchanged, live slots counted |
| `Yamux.Session.StreamFree` | yamux/stream.c:363-389 | the first live slot with the id is given back and counted off; the last slot goes with its stream |
| `Yamux.Session.GetSessionStream` | yamux/session.c:409-425 | the first slot with the id, live or not |
| `Yamux.Session.FindOpen` | yamux/session.c:277-285 | the first live slot with the id whose stream is not closed |
| `Yamux.Session.StreamProcess` | yamux/stream.c:467-551 | the payload goes to the queue of this slot, or with all that waits to the protocol if it makes a whole message; the window wraps at 32 bits; no other slot changes |
| `Yamux.WindowAdds` | yamux/stream.c:473-480 | a window update adds its length modulo 2^32 |
| `Yamux.Session.GetFlags` | yamux/stream.c:229-275 | SYN for a new channel, ACK for one the other side opened, nothing in any other state; the stream that is updated is the first with the same id |
| `Yamux.Session.Deliver` | yamux/session.c:285-332 | flags first: refused ones change nothing, otherwise state and payload of this stream alone change |
| `Yamux.Session.Greet` | yamux/session.c:360-380 | the frame that opened a stream goes to the first slot with its id, the channel state to the new one |
| `Yamux.Session.OpenInbound` | yamux/session.c:340-394 | a stream for the other side's SYN, for every state of the slots, also with an id used before |
| `Yamux.Session.Decode` | yamux/session.c:193-401 | a frame reaches the first open stream with its id, opens one, or changes no queue, for every frame and every state |
| `Yamux.AckEstablishes` | yamux/session.c:311-323 | a frame with flag 2 establishes exactly a stream whose opening was sent and is refused by any other open stream, without effect |
| `Yamux.FinAndRstClose` | yamux/session.c:290-310 | flags 4 and 8 close an open stream in any state, after its payload was taken |
| `Yamux.SynOpensIff` | yamux/session.c:340-394 | without an open stream of its id, a data frame opens one exactly if it has flag 1, an odd id for a server or an even one for a client, and finds room; otherwise it has no effect |
| `Yamux.SessionsConnect` | yamux/stream.c:229-275 | a client and a server with the flags that each side's sends ask for: both ends of the stream are established |
| `Yamux.FrameIsTakenIff` | yamux/session.c:276-394 | what a frame carries is taken exactly if it meets an open stream that its flags suit or opens one, and for the stream that it names |
| `Yamux.OpeningFrameArrivesIff` | yamux/session.c:360-375 | the payload of a frame that opens a stream reaches the new channel if and only if no slot below the chosen one holds the id; otherwise it reaches the first of those, whose stream is live but closed |
| `Yamux.ResetChannelIsReached` | yamux/session.c:360-375 | a concrete run: a stream opened, reset and opened again under one id, whose second payload waits at the channel that was reset |
| `Yamux.KeepsAccounts` | yamux/stream.c:467-551 | a step that takes and gives in balance keeps every stream's account |
| `Yamux.AccountsBalance` | yamux/session.c:276-394 | in every run that uses no stream id twice, the bytes consumed from a channel and those waiting there are the payloads accepted for its id, in order |
| `Yamux.SlotsBounded` | yamux/stream.c:48-70 | in every run cap_streams <= backlog, and there is no room for a stream exactly when all slots are live |
| `Yamux.Run` | yamux/session.c:193-401 | every run of frames, opens, reads, sends, attachments and frees returns and leaves exactly what its steps say, one after the other; num_streams counts the live slots; the accounts balance if no id is used twice |
| `Yamux.OwnIds` | yamux/stream.c:32-108 | in every run the ids a session gives its own streams are 1, 3, 5, ... for a client and 2, 4, 6, ... for a server, modulo 2^32 |

## Left out

- Base58.Encode: what happens after the caller's pointer has been overwritten is the case `PointerLost` and nothing more.
- Base58.Decode: the text is what C sees as the string, up to the first NUL, so it holds none; a character with its high bit set at the front of the text is treated as outside the alphabet, where the code first reads past the end of its table (crypto/encoding/base58.c:54).
- RoutingTable.Table.NewNode: martian and blacklisted addresses are one flag `refused`; the two address families are two tables; pings that are sent are not recorded as messages.
- Sha1.Rounds: the 80 written-out macro calls are a loop of sixteen turns of five, since the register names repeat every five calls; the union of bytes and words is loaded and stored explicitly, for a little-endian machine.
- HashMap.Table.Put: the caller's key bytes are taken not to change while they are stored; whether the allocator grants a size does not depend on the time of asking.
- ClosestPeers.FindClosestPeers: the peer hash does not fail.
- Tokens.Run: a failing random source is covered only in that the next secret is arbitrary.
- PeerStore.Store.StorageStore: `peers` is a sequence with a separate `maxpeers`; the bytes behind `numpeers` in the array are not modelled.
- Secio.SelectBest: with order 0 the local list must not be empty, since the code reads its first name unchecked (secio/secio.c:258).
- Secio.Handshake: sending, receiving, generating ephemeral keys, decoding public keys, the final exchange of encrypted nonces and the peerstore are not modelled.
- Yamux.Session.Decode: callbacks, ping replies and multistream negotiation of a new channel are not modelled; a child stream that is set up later is an event of `Yamux.Run`.
- Yamux.Session.StreamFree: freeing memory, and reuse of a freed slot's structure, are not modelled.
- Thread pool: pause, resume, destroy and memory of jobs; the linked job queue is a sequence.
- Search bookkeeping across searches (`new_search`, `expire_searches`), callbacks and the sending of messages.
- Maintenance timers of the DHT (`neighbourhood_maintenance`, `bucket_maintenance`), cached node lists and statistics.
- The KRPC parser and printers: the parser finds fields by searching for substrings, so it inverts the printers only for binary fields free of the markers.
- `yamux_stream_write`: its channel window starts at 0 and nothing shown raises it.
- Sockets, dialing, discovery, QUIC, swarm threads, the logger, protobuf, varint and multiaddr codecs, RSA, AES and ECDH.
- Vector, linked list, peerstore, URL encoding and memstream, which would only add easy members.
