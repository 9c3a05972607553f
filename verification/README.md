# Verification of the dictionary server and its client

A key-value dictionary server accepts TCP connections, hands each descriptor to one of N worker
threads, reassembles one length-prefixed request per connection, and answers GET, SET and STAT from a
shared map and shared counters; a Bloom filter may stand in front of the map. A multi-threaded client
reads requests from a file, divides them among its threads and writes what came back in batches.

The Dafny project models that behaviour and proves properties of it. `dafny verify dfyconfig.toml`
checks everything.

| file | component |
|---|---|
| `BitTable.dfy`, `Division.dfy` | the byte-packed bit table as a set of bits; integer division |
| `HashAp.dfy`, `HashFacts.dfy` | the hash loop and a recursive reference definition; what the mixing steps compute |
| `BloomTheory.dfy` | what a filter denotes; runs of inserts and compressions; table sizing |
| `BloomFilter.dfy` | the filter in place over an array of bytes |
| `FilterAlgebra.dfy` | when combining and compressing filters is right, with filters for which it is not |
| `Dictionary.dfy` | the locked map, with and without the filter |
| `Server.dfy` | N workers over one dictionary and one set of counters, as a transition system |
| `Handlers.dfy` | counters and request handlers in place, tied to the steps of `Server.dfy` |
| `HandOff.dfy` | dispatcher, stopper and N workers, as a transition system |
| `ServiceThread.dfy` | a worker's context in place, tied to the steps of `HandOff.dfy` |
| `WorkerManager.dfy` | the two load-balancing policies |
| `TcpFlow.dfy`, `Reassembly.dfy` | framing and reassembly: one event in place, then whole connections |
| `Arrival.dfy` | frames that arrive in any chunks at all, and when a request is parsed once |
| `SocketWrite.dfy` | the loop of partial writes |
| `Texts.dfy`, `ClientInput.dfy` | texts cut and joined; the client's parsing |
| `ClientResults.dfy`, `ResultLines.dfy` | partition, merge and batched output; the result file read back |

Code that updates fields or buffers is a class or a method with a loop, proved against a function of the
old state; the concurrent protocols are transition systems in which every lock region that can be
interrupted is split into steps, and every unlocked read is one step. The sequential classes
(`ServiceThread.dfy`, `Handlers.dfy`, `Dictionary.dfy`) are tied to the systems by refinement: a method run
without interference has the effect of a listed sequence of steps.

Where the code differs from its evident intention, the code is modelled and the difference is a result:

* `get` behind the filter reports every hit as a failure (`server/src/Dictionary.cpp:80`). The recorded results show
  it: `client/results/results_1645156912.csv:10` has no success where `client/results/results_1645158442.csv:10` has one.
  `Dictionary.GetAgreesExactly` says for which inputs the written `get` agrees with the unfiltered one,
  `Server.FilterHidesEverySuccess` what clients see, and the results for the intended form are stated separately.
* The completion test compares a count that includes the four header bytes with the bare payload length
  (`server/src/TcpFlow.cpp:104`), and a first chunk that is shorter than the header is not handled (`:96-99`).
  `Arrival.ReceivedOnceExactly` gives the exact condition under which a request that has arrived, in any chunks at all,
  is parsed once and on the whole payload.
* The guard of the combination operators compares salt count, table size and seed (`util/include/bloom_filter.hpp:397-402`), but
  neither the salts nor the sizes that compression went through. `FilterAlgebra.UnionLosesKey` and
  `FilterAlgebra.IntersectLosesKey` are filters that pass the guard and lose a key; `FilterAlgebra.UnionIsRightExactly`,
  `FilterAlgebra.IntersectIsRightExactly` and `FilterAlgebra.OperatorsAreRightExactly` give the exact conditions. For equal salts a
  caller can check them by comparing the chains, or their effect on the indices of the original table
  (`FilterAlgebra.ChainsAgreeExactlyBelowFirst`). The operators also read past the end of an operand that
  was compressed further (`FilterAlgebra.CompressedOperandIsTooShort`).
* `compress` accepts sizes under half the present one, for which its OR loop writes past the end of the new table;
  `Bloom.BloomFilter.Compress` says exactly when, and `FilterAlgebra.MoreThanHalfOverruns` that every accepted percentage above 50 does.
* The capacity test is made before the lock is taken (`server/src/Dictionary.cpp:53`), so the capacity is a bound only for
  one worker; `Server.CapacityBoundIsExact` gives the least bound for N.
* STAT reads three counters one after another, so its numbers add up in every run only for one worker
  (`Server.StatConsistentExactlyForOneWorker`), and otherwise it may count any number of outcomes whose requests it does not
  count (`Server.ExcessIsBoundedExactlyForOneWorker`).
* The filter is enabled after the workers were started (`server/src/TcpServer.cpp:21-36`), and without the lock
  (`server/src/Dictionary.cpp:26-31`). `Server.LatestExactlyWhenEnabledFirst` says when every answer still reflects the latest
  set: exactly when no set had been taken and none was between its look at the flag and its write to the map.
  An empty map is not enough (`Server.EnabledInside`).
* The exiting flag is tested before a session is opened, not while (`server/src/ServiceWorker.cpp:46-55`), so one more session
  may open after the flag is stored (`HandOff.SessionOpenedAfterFlag`); `HandOff.AtMostOneSessionOnceExiting` says which.
* The size clamps after the rounding of the table size (`util/include/bloom_filter.hpp:154-157`) keep all accesses in range
  under the default bounds exactly when the estimate is not zero (`BloomTheory.DefaultBoundsNeedAnEstimate`).
* A request read from a line that spells none has no type (`client/src/TestClient.cpp:77-91`). `ClientInput.AllTypedExactly` gives the
  exact condition for all requests of a file to have one. The line loop tests for the end of the file before it reads
  (`:65-66`), so a final newline adds a blank line and always violates the condition (`ClientInput.FinalNewlineNeverAllTyped`);
  so does a file without one that is just "GET" (`ClientInput.BareGetIsNotTyped`).

## Model

| member | source | states |
|---|---|---|
| BitTables.SetOneBit | util/include/bloom_filter.hpp:269 | or-ing one mask entry into one byte adds exactly that bit to the set the table denotes |
| BitTables.BitMaskIsPower | util/include/bloom_filter.hpp:34-43 | entry b of the mask table is the byte with the value two to the power b |
| BitTables.TableExtensional | util/include/bloom_filter.hpp:34-43 | a table is determined by its length and its set of bits, so every statement about sets is one about bytes |
| BitTables.OrTables | util/include/bloom_filter.hpp:422-425 | bytewise or denotes the union, within the shorter table |
| BitTables.AndTables | util/include/bloom_filter.hpp:404-407 | bytewise and denotes the intersection |
| BitTables.XorTables | util/include/bloom_filter.hpp:440-443 | bytewise exclusive or denotes the symmetric difference |
| BitTables.FoldReduces | util/include/bloom_filter.hpp:683-696 | or-ing the tail of a table onto its head reduces every set bit modulo the new size, no more and no less |
| HashAp.EveryByteReadOnce | util/include/bloom_filter.hpp:551-608 | the words the hash reads, put back into bytes, are the key: each byte once, in order |
| HashAp.HashIsReference | util/include/bloom_filter.hpp:567-605 | whatever the mixing steps compute: the tail driven by the loop counter equals a definition without the counter, with the 4-byte word mixed the even way, the 2-byte word the odd way only after a 4-byte one, and the last byte with the number of tail words |
| HashAp.HashKey | util/include/bloom_filter.hpp:551-608 | the loop stays inside the key, terminates, and yields the recursive hash for every length |
| HashAp.HashTail | util/include/bloom_filter.hpp:567-583 | from any position with fewer than eight bytes left, the tail absorbs what is left of the key |
| HashFacts.OctIsOddAndEven | util/include/bloom_filter.hpp:561-562 | a group is mixed as an odd and an even word at once, its first word the odd way and its second the even way |
| HashFacts.OctFromZero | util/include/bloom_filter.hpp:561-562 | from 0 a group gives the complement of its second word |
| HashFacts.OddFacts | util/include/bloom_filter.hpp:573-574 | the odd step at word 0, at hash 8, and at a fixed word with the top bit set |
| HashFacts.EvenFacts | util/include/bloom_filter.hpp:575-576 | the even step at hash 0 and at fixed hashes with high and low bits set |
| HashFacts.LastFacts | util/include/bloom_filter.hpp:603 | the step for the last byte at hash 0, and at hash 1 for fixed bytes |
| HashFacts.KeyOfLength1 | util/include/bloom_filter.hpp:601-604 | the hash of a fixed key of 1 byte under the salt 0xAAAAAAAA |
| HashFacts.KeyOfLength2 | util/include/bloom_filter.hpp:585-599 | the hash of a fixed key of 2 bytes under the salt 0xAAAAAAAA |
| HashFacts.KeyOfLength3 | util/include/bloom_filter.hpp:585-604 | the hash of a fixed key of 3 bytes under the salt 0xAAAAAAAA |
| HashFacts.KeyOfLength4 | util/include/bloom_filter.hpp:569-583 | the hash of a fixed key of 4 bytes under the salt 0xAAAAAAAA |
| HashFacts.KeyOfLength5 | util/include/bloom_filter.hpp:569-604 | the hash of a fixed key of 5 bytes under the salt 0xAAAAAAAA |
| HashFacts.KeyOfLength6 | util/include/bloom_filter.hpp:569-599 | the hash of a fixed key of 6 bytes under the salt 0xAAAAAAAA |
| HashFacts.KeyOfLength7 | util/include/bloom_filter.hpp:569-604 | the hash of a fixed key of 7 bytes under the salt 0xAAAAAAAA |
| HashFacts.KeyOfLength8 | util/include/bloom_filter.hpp:556-565 | the hash of a fixed key of 8 bytes under the salt 0xAAAAAAAA |
| HashFacts.SecondWordTells | util/include/bloom_filter.hpp:556-565 | keys of whole groups that differ in the second word of the last group hash apart, under every salt |
| HashFacts.TailWordTells | util/include/bloom_filter.hpp:569-583 | keys that differ in a 4-byte tail hash apart, under every salt |
| HashFacts.LastByteComesLast | util/include/bloom_filter.hpp:601-604 | the hash of a key of odd length is that of the key without its last byte, mixed with that byte and the loop counter |
| HashFacts.LastByteTells | util/include/bloom_filter.hpp:601-604 | keys of odd length that differ in their last byte hash apart, under every salt |
| BloomTheory.ReduceOnceMore | util/include/bloom_filter.hpp:707-717 | a size appended to the chain means one more reduction of every index |
| BloomTheory.CompressCommutesWithInsert | util/include/bloom_filter.hpp:656-717 | compressing then inserting and inserting then compressing give the same filter, whatever it held |
| BloomTheory.RunDenotes | util/include/bloom_filter.hpp:656-717 | after any run of inserts and compressions the bits are exactly the images of all inserted keys through the whole chain of sizes |
| BloomTheory.AcceptsExactly | util/include/bloom_filter.hpp:669-677 | a size is accepted if and only if the largest multiple of eight not above it is at least 8 and below the present size |
| BloomTheory.InterleavingIrrelevant | util/include/bloom_filter.hpp:260-273 | only the set of keys and the chain of sizes matter: order, repetition and interleaving leave no trace |
| BloomTheory.NoFalseNegatives | util/include/bloom_filter.hpp:303-319 | no inserted key is ever reported absent, through any number of compressions |
| BloomTheory.HalvingIsRebuilding | util/include/bloom_filter.hpp:707-717 | if every size halves the one before, an index is the hash modulo the final size |
| BloomTheory.HalvedFilterIsRebuilt | util/include/bloom_filter.hpp:656-717 | after any run whose compressions all halve the table, the filter holds the bits of one given the same keys at the final size from the start |
| BloomTheory.HalvingChainsAgree | util/include/bloom_filter.hpp:707-717 | halving chains that end at one size reduce every hash alike, however often they halved |
| BloomTheory.InRangeExactlyForWholeBytes | util/include/bloom_filter.hpp:461-465 | all byte accesses are in range for every hash if and only if the size is a multiple of eight or beyond every hash |
| BloomTheory.TableSizeIsLeast | util/include/bloom_filter.hpp:145-157 | between the bounds the size is the least multiple of eight not below the estimate |
| BloomTheory.DefaultBoundsNeedAnEstimate | util/include/bloom_filter.hpp:145-157 | rounding and clamping with the default bounds give such a size if and only if the estimate is positive |
| Bloom.BloomFilter.constructor | util/include/bloom_filter.hpp:645-649 | an empty filter whose chain is its table size; every later guarantee holds exactly for a positive multiple of eight |
| Bloom.BloomFilter.ComputeIndices | util/include/bloom_filter.hpp:707-717 | the loop over the sizes yields the chained reduction, and the byte it points to exists |
| Bloom.BloomFilter.Insert | util/include/bloom_filter.hpp:260-273 | the new value is the abstract insert: the key's bits are added and nothing else changes |
| Bloom.BloomFilter.Contains | util/include/bloom_filter.hpp:303-319 | true if and only if all the key's bits are set |
| Bloom.BloomFilter.InsertAll | util/include/bloom_filter.hpp:292-301 | adds exactly the image of the set of keys in the range, and counts each key of the range |
| Bloom.BloomFilter.ContainsAll | util/include/bloom_filter.hpp:337-353 | the index of the first key reported absent, or the length |
| Bloom.BloomFilter.Clear | util/include/bloom_filter.hpp:254-258 | no bit set, sizes unchanged |
| Bloom.BloomFilter.Union | util/include/bloom_filter.hpp:413-429 | safe exactly when the other table is long enough; then the union of the bits when the parameters agree, otherwise unchanged; for operands that give every key the same bits, the table of both key sets; an operand with another salt count, table size or seed changes no byte |
| Bloom.BloomFilter.Intersect | util/include/bloom_filter.hpp:395-411 | safe exactly when the other table is long enough; then the intersection of the bits when the parameters agree; for operands that give every key the same bits, it reports a key if and only if both did, each by its own salts and sizes; an operand with another salt count, table size or seed changes no byte |
| Bloom.BloomFilter.Difference | util/include/bloom_filter.hpp:431-447 | safe exactly when the other table is long enough; then the symmetric difference when the parameters agree, otherwise unchanged; an operand with another salt count, table size or seed changes no byte |
| Bloom.BloomFilter.FoldTable | util/include/bloom_filter.hpp:681-696 | every index written exists if and only if the new size is at least half the old one; then the new table denotes the old bits reduced modulo the new size |
| Bloom.BloomFilter.Compress | util/include/bloom_filter.hpp:656-703 | safe if and only if the size is rejected or at least half the present one; then accepted exactly within the guard, and the new value is the abstract compression, otherwise nothing changes |
| Bloom.EqualValuesEqualBytes | util/include/bloom_filter.hpp:34-43 | two valid filters with equal values have equal byte tables |
| Bloom.UnionIsTableOfBothKeySets | util/include/bloom_filter.hpp:413-429 | the union of the tables of two key sets, each through its own salts and sizes, is the table of both key sets when every key has the same bits in both |
| Bloom.DifferenceTwiceRestores | util/include/bloom_filter.hpp:431-447 | the symmetric difference with one operand, applied twice, restores every byte |
| FilterAlgebra.HashReachesEverything | util/include/bloom_filter.hpp:551-608 | every 32-bit value is the hash of some key |
| FilterAlgebra.UnionIsRightExactly | util/include/bloom_filter.hpp:413-429 | for tables of equal length, the union is the table of both key sets, whatever those are, if and only if every key has the same bits in both filters |
| FilterAlgebra.IntersectIsRightExactly | util/include/bloom_filter.hpp:395-411 | for tables of equal length, the intersection reports exactly what both reported, whatever their tables, if and only if every key has the same bits in both filters |
| FilterAlgebra.OperatorsAreRightExactly | util/include/bloom_filter.hpp:395-429 | with equal salts, both operators are right under every choice of salts if and only if the two chains of sizes reduce every hash alike; equal chains do, and so do halving ones |
| FilterAlgebra.ChainsAgreeExactlyBelowFirst | util/include/bloom_filter.hpp:707-717 | chains with equal first sizes, which the guard ensures, reduce every hash alike if and only if they do so on the indices of the original table |
| FilterAlgebra.UnionLosesKey | util/include/bloom_filter.hpp:413-429 | for every seed, two filters that pass the guard: one reports a key, their union does not |
| FilterAlgebra.IntersectLosesKey | util/include/bloom_filter.hpp:395-411 | for every seed, two filters that pass the guard: both report a key, their intersection does not |
| FilterAlgebra.CompressedOperandIsTooShort | util/include/bloom_filter.hpp:413-429 | for every seed, two filters that pass the guard although the operator reads past the end of one |
| FilterAlgebra.MoreThanHalfOverruns | util/include/bloom_filter.hpp:656-696 | every accepted reduction by a whole percentage above 50 writes past the end of the new table |
| FilterAlgebra.HalvingOverruns | util/include/bloom_filter.hpp:656-696 | so does a reduction by half that is rounded down |
| Dictionary.CommitKeepsNoMisses | server/src/Dictionary.cpp:57-61 | a locked set keeps every stored key in the filter |
| Dictionary.EnableIsSafeExactlyWhenEmpty | server/src/Dictionary.cpp:26-31 | enabling the filter misses no stored key if and only if the map is empty (or the filter has no hash) |
| Dictionary.FilterInvisibleExactlyWithoutMisses | server/src/Dictionary.cpp:72-95 | the intended get equals the unfiltered one for every key if and only if no stored key is missing from the filter |
| Dictionary.GetAgreesExactly | server/src/Dictionary.cpp:72-95 | for which inputs the written get agrees with the unfiltered branch, for the whole reply and for the value alone |
| Dictionary.AnsweredFromTheMap | server/src/Dictionary.cpp:85-92 | with the filter off every key is answered from the map, an absent one with the text NOT_FOUND |
| Dictionary.HitIsReportedAsFailure | server/src/Dictionary.cpp:76-80 | a stored key that the written get reports as a failure with the right value |
| Dictionary.GetIsLatest | server/src/Dictionary.cpp:52-95 | after any sequence of sets, with or without the filter, the intended get and the unfiltered one return the latest set of the key |
| Dictionary.Store.EnableBloomFilter | server/src/Dictionary.cpp:26-44 | a fresh empty filter when enabled, the map untouched |
| Dictionary.Store.Set | server/src/Dictionary.cpp:52-64 | succeeds if and only if fewer than 1000000 keys are stored, even for a stored key; then map and filter both hold the key |
| Dictionary.Store.Lookup | server/src/Dictionary.cpp:72-95 | result and out-parameter are those of the written get on the current value |
| Server.CountsAfter | server/src/TcpFlow.cpp:142-165 | every step keeps: entries plus workers past the capacity test at most capacity + N - 1, and requests minus outcomes equal to the workers in the middle of a GET |
| Server.ReadingsAfter | server/src/TcpFlow.cpp:170-176 | every step keeps the bounds on what a STAT in progress has read and on every reply given |
| Server.HistoryAfter | server/src/Dictionary.cpp:52-95 | every step keeps: the map is the replay of the sets in lock order and every answer stands in the stated relation to the latest one, with the filter enabled at any time, even in the middle of a set |
| Server.InvAlways | server/src/TcpFlow.cpp:142-176 | the whole invariant holds in every state that N workers can reach |
| Server.OneInTheLock | server/src/Dictionary.cpp:57-73 | in no run are two workers in the lock of the dictionary together |
| Server.CapacityExceededByAtMostOthers | server/src/Dictionary.cpp:52-64 | the map never exceeds its capacity by more than N - 1 |
| Server.CapacityBoundIsExact | server/src/Dictionary.cpp:52-64 | a bound holds in every run if and only if it is at least capacity + N - 1 |
| Server.StatReplyBounds | server/src/TcpFlow.cpp:170-176 | every STAT reply satisfies gets - (N - 1) <= successes + failures <= true gets at its last read |
| Server.StatBoundReached | server/src/TcpFlow.cpp:170-176 | a run in which a STAT reply is short by the full N - 1 |
| Server.StatConsistentExactlyForOneWorker | server/src/TcpFlow.cpp:170-176 | the three numbers add up in every run if and only if there is one worker |
| Server.OutcomesMayExceedRequests | server/src/TcpFlow.cpp:170-176 | with two workers or more, for every k a run in which a STAT reply counts k outcomes and no request |
| Server.ExcessIsBoundedExactlyForOneWorker | server/src/TcpFlow.cpp:142-176 | for every bound: no reply of any run counts more outcomes than requests by more than it, if and only if there is one worker |
| Server.AnswersReflectLatest | server/src/TcpFlow.cpp:142-155 | every GET answered in any run gives the latest set in lock order when it finds no filter on, and in the intended form also behind a filter enabled before the first set and in the middle of none; the written get behind such a filter gives its value with a failure |
| Server.EnabledInside | server/src/Dictionary.cpp:57-61 | for every e, a run in which the filter is enabled after e sets, between the look of the next at the flag and its write to the map, and then knows no key |
| Server.LateFilterHidesKey | server/src/TcpServer.cpp:19-37 | for every other way of enabling the filter, a run in which it hides a stored key |
| Server.LatestExactlyWhenEnabledFirst | server/src/TcpServer.cpp:19-37 | every answer of every run that enables the filter in a given way reflects the latest set if and only if no set had been taken and none was past its look at the flag (or the filter has no hash) |
| Server.FilterHidesEverySuccess | server/src/Dictionary.cpp:75-84 | the written get counts as successes at most the answers to requests that found the filter off, in every run |
| Handlers.Stats.IncrGetReq | server/src/Stats.cpp:14-17 | one more request, nothing else |
| Handlers.Stats.IncrGetReqSucc | server/src/Stats.cpp:19-22 | one more success, nothing else |
| Handlers.Stats.IncrGetReqFail | server/src/Stats.cpp:24-27 | one more failure, nothing else |
| Handlers.GetAlone | server/src/TcpFlow.cpp:142-155 | the steps of an undisturbed GET add one request and one outcome and answer from the current dictionary |
| Handlers.SetAlone | server/src/TcpFlow.cpp:160-165 | the steps of an undisturbed SET store the entry, or leave everything as it was at capacity |
| Handlers.StatAlone | server/src/TcpFlow.cpp:170-176 | an undisturbed STAT reports the true counters |
| Handlers.Flow.HandleGetRequest | server/src/TcpFlow.cpp:142-155 | run alone, the handler refines the GET steps of the server and sends a value or a reason as they say |
| Handlers.Flow.HandleSetRequest | server/src/TcpFlow.cpp:160-165 | run alone, the handler refines the SET steps and answers "failed" exactly at capacity |
| Handlers.Flow.HandleStatRequest | server/src/TcpFlow.cpp:170-176 | run alone, the handler refines the three reads and sends the report they append |
| HandOff.ContextAfter | server/src/ServiceThread.cpp:139-167 | every step keeps each worker's own facts: lock, exit flags, sessions, what it has processed |
| HandOff.LockAfter | server/src/ServiceThread.cpp:117-118 | every step keeps queue locks and the stop mutex in agreement with the program counters |
| HandOff.WakeAfter | server/src/ServiceThread.cpp:154-187 | every step keeps the count of outstanding wake-ups at least the count of waiting descriptors |
| HandOff.OrderAfter | server/src/ServiceThread.cpp:154-187 | every step keeps popped + queued + in flight equal to what was dispatched and not closed |
| HandOff.RoundRobinAfter | server/src/WorkerManager.cpp:61-64 | every step keeps dispatch number k at worker k mod N |
| HandOff.HandshakeAfter | server/src/ServiceThread.cpp:108-123 | every step keeps: while the stopper waits, the exit is on its way and the notification still to come |
| HandOff.StoppedAfter | server/src/ServiceThread.cpp:111-119 | every step keeps: a worker the stopper is done with has exited, unless its byte could not be written |
| HandOff.InvAlong | server/src/ServiceThread.cpp:65-188 | the whole invariant survives every run of dispatcher, stopper and N workers |
| HandOff.NoLostWakeUp | server/src/ServiceThread.cpp:139-188 | in every reachable state unread 'c' bytes, plus one for a worker in the middle of a wake-up, are at least the queue length plus one between write and push |
| HandOff.StreamIsShare | server/src/WorkerManager.cpp:59-64 | the descriptors recorded for a worker are those numbered k with k mod N equal to its index, less those closed |
| HandOff.ShareIsNumbered | server/src/WorkerManager.cpp:59-64 | the share of a worker lists, once each and in order, exactly the dispatches with its remainder that were not closed |
| HandOff.EachWorkerGetsItsShare | server/src/WorkerManager.cpp:39-64 | popped, then queued, then in flight is exactly the worker's round-robin share, in order |
| HandOff.NeverSentToTwoWorkers | server/src/WorkerManager.cpp:39-53 | every dispatch not closed is in the share of exactly one worker, once, and popped + queued + in flight is the share in increasing order, even when descriptor numbers are reused |
| HandOff.SessionsOpenedInOrder | server/src/ServiceWorker.cpp:44-58 | a worker opens a session for each descriptor it processes, in order, until its exiting flag is stored; after that the opened ones stay a prefix of the processed ones |
| HandOff.AtMostOneSessionOnceExiting | server/src/ServiceWorker.cpp:44-58 | from any reachable state in which the exiting flag is stored, any run opens at most one more session at that worker: that of the descriptor at the front of its queue, and only if the worker was past its test of the flag |
| HandOff.OpenSessions | server/src/ServiceWorker.cpp:44-67 | in every reachable state before the clean-up the open sessions are exactly those opened less those closed |
| HandOff.ClosedByRun | server/src/ServiceWorker.cpp:64-67 | a run closes at a worker exactly the sessions that its steps name |
| HandOff.SessionsCloseOneByOne | server/src/ServiceWorker.cpp:44-67 | after any run that has not cleaned up, what is open at a worker is what was opened less what the run closed by name |
| HandOff.SessionOpenedAfterFlag | server/src/ServiceWorker.cpp:46-55 | for every number of workers, a run in which that session opens after the flag was stored |
| HandOff.NoSessionAfterExit | server/src/ServiceThread.cpp:147-152 | once 'e' is handled, the session table is empty in every later state of every run |
| HandOff.NoMissedNotification | server/src/ServiceThread.cpp:69-71 | in no reachable state does the stopper sleep on a worker whose notification has already happened |
| HandOff.StoppedWorkersHaveExited | server/src/ServiceThread.cpp:108-123 | in every reachable state a worker the stopper is done with has left its loop and has no session, unless its byte could not be written |
| HandOff.WokenEarly | server/src/ServiceThread.cpp:117-118 | for every number of workers, a run that wakes the stopper before the worker it waits for has read its byte |
| HandOff.ClosedWhenWakeFails | server/src/ServiceThread.cpp:179-184 | a descriptor whose wake-up byte cannot be written is closed and reaches no worker |
| HandOff.NeverStuck | server/src/ServiceThread.cpp:108-123 | deadlock freedom: until the shutdown is done some thread has an enabled step that is not a new connection, a failure, the end of a connection or a spurious wake-up |
| HandOff.EveryStepCosts | server/src/ServiceThread.cpp:65-188 | every step of every thread uses up some of a measure of the state, which only a new connection or a spurious wake-up can raise, each by a fixed amount |
| HandOff.EveryRunIsBounded | server/src/ServiceThread.cpp:65-188 | every run, however scheduled, has at most as many steps as that measure of its first state and the allowances for its new connections and spurious wake-ups add up to |
| HandOff.StuckOnlyWhenStopped | server/src/WorkerManager.cpp:87-96 | a run that leaves no thread a step of its own accord has stopped every worker; so, with the listener stopped, every schedule completes the shutdown |
| HandOff.ShutdownCanComplete | server/src/WorkerManager.cpp:87-96 | from every state the invariant allows, the threads can be scheduled so that every worker is stopped |
| ServiceThreads.StepsAreARun | server/src/ServiceThread.cpp:139-167 | steps of one worker away from the stop mutex are a run of the system that changes that worker only |
| ServiceThreads.HandOverIsARun | server/src/ServiceThread.cpp:173-188 | lock, write and push of the dispatcher, uninterrupted, add one wake-up and one descriptor |
| ServiceThreads.DrainPopsEverything | server/src/ServiceThread.cpp:157-163 | draining pops the whole queue in order; unless exiting it adds one session for each descriptor, with the next numbers, to those already open |
| ServiceThreads.CallbackEffect | server/src/ServiceThread.cpp:139-167 | what a 'c' byte and an 'e' byte do to queue, history and session table |
| ServiceThreads.CallbackIsARun | server/src/ServiceThread.cpp:139-167 | the callback as written is a run of the transition system |
| ServiceThreads.ServiceWorker.ProcessEvent | server/src/ServiceWorker.cpp:44-58 | run alone it is the test of the flag and then the opening of the session: a session unless exiting |
| ServiceThreads.ServiceWorker.DeleteTcpFlow | server/src/ServiceWorker.cpp:64-67 | removes that session only, and nothing when there is none |
| ServiceThreads.ServiceWorker.CleanState | server/src/ServiceWorker.cpp:34-37 | empties the session table only |
| ServiceThreads.ServiceWorker.StopThread | server/src/ServiceThread.cpp:128-130 | requests the end of the loop only |
| ServiceThreads.ServiceWorker.Drain | server/src/ServiceThread.cpp:157-163 | the loop has the effect of the recursive drain |
| ServiceThreads.ServiceWorker.PopFront | server/src/ServiceThread.cpp:162 | pops the front descriptor only |
| ServiceThreads.ServiceWorker.DrainLocked | server/src/ServiceThread.cpp:155-164 | lock, drain and unlock are the corresponding steps |
| ServiceThreads.ServiceWorker.ReadByte | server/src/ServiceThread.cpp:141-147 | reads one byte and goes where the step goes |
| ServiceThreads.ServiceWorker.OnEvent | server/src/ServiceThread.cpp:139-167 | the callback has the effect proved to be a run of the system |
| ServiceThreads.ServiceWorker.AddFdToEvLoop | server/src/ServiceThread.cpp:173-188 | one more wake-up and one more descriptor, or nothing when the write fails |
| ServiceThreads.ServiceWorker.Stop | server/src/ServiceThread.cpp:108-116 | the exiting flag is stored in either case; waiting follows only a byte written |
| ServiceThreads.ServiceWorker.GetCurrentFdQueueSize | server/src/ServiceThread.cpp:78-81 | the queue length |
| WorkerManagement.WorkerManager.GetWorkerIndex | server/src/WorkerManager.cpp:59-82 | round robin: the successor modulo N; least loaded: the first position of the minimum; otherwise an index no worker has |
| WorkerManagement.WorkerManager.LeastLoaded | server/src/WorkerManager.cpp:66-75 | the loop over the workers finds the first with the shortest queue |
| WorkerManagement.WorkerManager.LoadBalanceFd | server/src/WorkerManager.cpp:39-53 | the worker the policy chooses gets one wake-up and the descriptor and no other worker changes; none gets it exactly when the policy is unknown |
| WorkerManagement.RoundRobinShare | server/src/WorkerManager.cpp:61-64 | closed form of a worker's number of dispatches by floor division |
| WorkerManagement.RoundRobinIsBalanced | server/src/WorkerManager.cpp:61-64 | the numbers of any two workers differ by at most one at any time |
| WorkerManagement.HandOffIsBalanced | server/src/WorkerManager.cpp:39-64 | in every reachable state without failed writes each worker has its floor share of the descriptors, or one more |
| WorkerManagement.LoadsAreLevelled | server/src/WorkerManager.cpp:65-75 | least-loaded dispatch to undrained queues keeps their lengths within one |
| WorkerManagement.LeastLoadedIsRoundRobin | server/src/WorkerManager.cpp:65-75 | and sends dispatch number m, from 0, to worker m mod N |
| TcpFlows.LengthRoundTrip | client/src/Client.cpp:75-79 | the length read from the four bytes of the prefix is the length written there |
| TcpFlows.BuildFrame | client/src/Client.cpp:75-80 | the client's buffer is the length prefix and then the payload |
| TcpFlows.TcpFlow.OnChunk | server/src/TcpFlow.cpp:82-101 | says exactly when a read would wrap the count or write outside a buffer; otherwise it has the effect of the abstract absorption |
| TcpFlows.TcpFlow.Deserialise | server/src/TcpFlow.cpp:114-137 | the parser runs on the buffer; without a request type the flow is deleted |
| TcpFlows.EventEnds | server/src/TcpFlow.cpp:52-106 | an event that finds the end of the stream or an error within its fifty reads deletes the flow and parses nothing; any other parses at most once, and deletes the flow exactly when that parse finds no request type |
| TcpFlows.CountFitsAWord | server/src/TcpFlow.cpp:83 | the byte count of a flow that goes on is a word of 32 bits |
| TcpFlows.TcpFlow.OnReadable | server/src/TcpFlow.cpp:41-109 | says exactly when an event would; otherwise it has the effect of absorbing its chunks, applying the written completion test, and deleting the flow when a parse finds no request type |
| Reassembly.AbsorbChunks | server/src/TcpFlow.cpp:82-101 | any split of any piece of the frame into chunks leaves the flow that depends on the byte count alone |
| Reassembly.DeliversExactly | server/src/TcpFlow.cpp:52-55 | an event that blocks brings up to fifty reads of one to 1200 bytes |
| Reassembly.DeletedExactly | server/src/TcpFlow.cpp:41-137 | whatever a connection carries, its flow is deleted if and only if the connection has ended or failed, or a buffer that was parsed had no request type |
| Reassembly.FlowAfter | server/src/TcpFlow.cpp:41-109 | the flow after any number of events, in closed form: buffer, counts, and the buffers the parser ran on, up to the first without a request type, which deletes the flow |
| Reassembly.AlmostComplete | server/src/TcpFlow.cpp:82-106 | as written: while the flow lives, `m_currlen` is four less than `m_lenTillnow` after the first byte; every buffer parsed is a prefix of the payload lacking at most four bytes, or empty and from an event before the first byte |
| Reassembly.ParsedOnceExactly | server/src/TcpFlow.cpp:104-106 | a frame that is complete and whose first chunk held the length prefix is parsed exactly once and on exactly the payload if and only if the completion test failed after every event but the last |
| Reassembly.ExactTestIsChunkingIndependent | server/src/TcpFlow.cpp:104-106 | with the header counted, every split into chunks and events is parsed once on exactly the payload, if and only if the last event brings something |
| Reassembly.WrittenTestParsesTwice | server/src/TcpFlow.cpp:104-106 | as written, with a last byte in an event of its own, the last buffer parsed before is the payload with a zero for its last byte; the payload is parsed after it if all buffers before had a request type, and otherwise not at all |
| Reassembly.GetParsedTwice | server/src/TcpFlow.cpp:104-106 | the request GET "k2" cut before its last byte: first another key is parsed, and then, provided that the cut request has a request type, the one that was sent |
| Arrival.NeverParsesPayload | server/src/TcpFlow.cpp:87-99 | with a first chunk shorter than the length prefix no buffer the parser is run on is the payload |
| Arrival.EmptyReceivedOnceExactly | server/src/TcpFlow.cpp:82-106 | a frame without a payload is parsed exactly once if and only if the completion test failed after every event but the last, whatever its first chunk |
| Arrival.ReceivedOnceExactly | server/src/TcpFlow.cpp:41-109 | a frame that has arrived, in any chunks and events, some of them empty, is handled inside its buffers and parsed exactly once, on exactly the payload, if and only if the first chunk held the length prefix (or the payload is empty) and the completion test failed after every event but the last |
| Arrival.ShortFirstChunkParsesNothing | server/src/TcpFlow.cpp:88-106 | a first event of one to three bytes makes the parser run on an empty buffer |
| SocketWrites.SocketWriteData | server/src/TcpFlow.cpp:194-210 | returns the length if and only if the socket accepts that much before a hard error, having written exactly the buffer; -1 exactly for a hard error before that, having written a proper prefix; without hard errors, as many productive calls as bytes make it return |
| SocketWrites.ProductiveCallsSuffice | server/src/TcpFlow.cpp:197-208 | without hard errors productive calls offer at least one byte each, however many retries come between |
| ClientInput.TrimPadded | util/include/Helper.h:14-34 | trimming removes exactly the white space around a trimmed text |
| ClientInput.IsSpaceExactly | util/include/Helper.h:9 | white space is the characters with the codes 9 to 13 and 32 |
| ClientInput.FieldsRoundTrip | client/src/TestClient.cpp:67-75 | trimmed comma-free fields joined by runs of commas, with white space around each, come back unchanged |
| ClientInput.NamesDiffer | client/src/TestClient.cpp:52-56 | no text equals two of the operation names when case is ignored |
| ClientInput.EqualIgnoringCaseExactly | client/src/TestClient.cpp:52-56 | texts compare equal if and only if they are equally long and each two characters are equal or are one letter in both cases |
| ClientInput.NamesExactly | client/src/TestClient.cpp:79-86 | the texts that compare equal to the operation names, letter by letter |
| ClientInput.RequestsExactly | client/src/TestClient.cpp:77-89 | which fields become a GET, a SET or a STAT, what each then holds, and that no others become one |
| ClientInput.LowerCaseGet | client/src/TestClient.cpp:67-81 | the line "get,k1" is a GET of k1 |
| ClientInput.NulEndsLine | client/src/TestClient.cpp:68-69 | what follows a NUL on a line is not read |
| ClientInput.RequestRoundTrip | client/src/TestClient.cpp:67-89 | every well-formed request line is recovered whatever its case and spacing |
| ClientInput.LinesOfJoin | client/src/TestClient.cpp:65-66 | lines joined by newlines are read back as those lines |
| Texts.OneMorePiece | client/src/TestClient.cpp:65-66 | a separator and a text without one add exactly one piece at the end |
| ClientInput.JoinOfLines | client/src/TestClient.cpp:65-66 | joining what was read gives the file content: nothing is lost |
| ClientInput.TypedExactly | client/src/TestClient.cpp:77-89 | fields give a request with a type if and only if they spell some request, and then that one |
| ClientInput.AllTypedExactly | client/src/TestClient.cpp:62-93 | every request read from a file has a type if and only if every line spells a request |
| ClientInput.FinalNewlineAddsBlank | client/src/TestClient.cpp:65-66 | a final newline adds exactly one blank line |
| ClientInput.FinalNewlineNeverAllTyped | client/src/TestClient.cpp:65-91 | a file that ends in a newline always yields a request without a type |
| ClientInput.BareGetIsNotTyped | client/src/TestClient.cpp:79-81 | a file that is just "GET", without a newline, does too |
| ClientInput.SplitLine | client/src/TestClient.cpp:67-75 | the token loop yields the fields of the line |
| ClientInput.ReadAndParse | client/src/TestClient.cpp:62-93 | one request for each line of the file, in order |
| ClientInput.FileRoundTrip | client/src/TestClient.cpp:62-93 | a file of well-formed request lines is read as exactly those requests if and only if no newline follows the last line |
| ClientResults.Partition | client/src/TestClient.cpp:20-37 | the threads' chunks concatenate to the input; all but the last have the floor share, the last takes the rest |
| ClientResults.Merge | client/src/TestClient.cpp:127-131 | the concatenation of all threads' results |
| ClientResults.Sort | client/src/TestClient.cpp:151 | a permutation of the results in timestamp order |
| ClientResults.WriteBatches | client/src/TestClient.cpp:148-201 | the writes concatenate to the unbatched text, and there are as few as batches of 1024 lines allow |
| ClientResults.SaveResults | client/src/TestClient.cpp:126-201 | the batched writes hold the lines of a timestamp-sorted permutation of everything the threads brought back, nothing lost or repeated, in as few writes as batches of 1024 lines allow |
| ClientResults.SortedOrderIsUnique | client/src/TestClient.cpp:117-120 | without equal timestamps the order, and so the file, is determined by the set of results alone |
| ResultLines.NumberReadsBack | client/src/TestClient.cpp:155 | every number is written in decimal without a leading zero and reads back as itself |
| ResultLines.LineReadsBack | client/src/TestClient.cpp:153-189 | a line whose texts hold no comma and no newline, split at its commas, gives the timestamp, the name of its type, key, value or (for a GET) reason, and the counters in order, and nothing else |
| ResultLines.TextReadsBack | client/src/TestClient.cpp:152-201 | split into lines, the text gives exactly the results that have a type, in order |
| ResultLines.SaveAndReadBack | client/src/TestClient.cpp:126-201 | the batched writes, read back, give exactly the typed results of all threads in timestamp order |
| ResultLines.GetLine | client/src/TestClient.cpp:153-190 | the line of a GET with a value |
| ResultLines.FailedGetLine | client/src/TestClient.cpp:168-172 | the line of a GET with a reason |
| ResultLines.SetLine | client/src/TestClient.cpp:153-190 | the line of a SET |
| ResultLines.StatLine | client/src/TestClient.cpp:174-187 | the line of a STAT |

## Left out

- Bloom.BloomFilter.Compress: takes the new size as an integer, because the percentage arithmetic is floating point. The estimate `effective_fpp` stored on the way is not modelled. Where the code would write outside the new table the method stops and reports it instead.
- Bloom.BloomFilter.Union: where the code would read past the end of the other table the method stops and reports it; the bytes combined before that are not described. The same holds for Bloom.BloomFilter.Intersect and Bloom.BloomFilter.Difference.
- Bloom.BloomFilter.constructor: the plain and the compressible filter are one class; the plain one is the case of a chain with one size. Salts are an arbitrary fixed sequence; counters and sizes are unbounded.
- HashAp.HashKey: the nested branches of the tail are three small methods, one for each word size.
- HandOff.EveryRunIsBounded: bounds the steps of a run by those of its new connections and spurious wake-ups; the stopping of the listener before the workers, and a condition variable that wakes its waiter for ever, are not modelled.
- HandOff.EachWorkerGetsItsShare: the dispatcher of the transition system uses round robin, the policy in use; the least-loaded policy is proved on queue lengths only. The invariant about wake-ups does not depend on the policy.
- ServiceThreads.ServiceWorker.OnEvent: the class runs one callback without interruption; interruptions are in the transition system. Sessions are numbered instead of keyed by the flow's address text, and the lifetime of flows is not modelled.
- TcpFlows.TcpFlow.OnReadable: where the code would wrap its 32-bit count or copy outside the buffer sized by the received length, the method stops and reports it; client frames with a long first chunk never get there (`Reassembly.AbsorbChunks`). `m_currlen`, which the constructor does not initialise, starts at 0.
- Reassembly.FlowAfter: the message parser is not modelled; whether it finds a request type is any function of the buffer it is run on.
- Arrival.ReceivedOnceExactly: assumes that the payload has a request type, which the client always sets (`client/src/Client.cpp:64`). Without one the flow is deleted by the first parse.
- SocketWrites.SocketWriteData: the socket's answers are a finite list; a loop that outlives the list is a third outcome.
- Server.StatReplyBounds: counters are unbounded, so neither 64-bit wrap-around nor the truncation to 32 bits in the message is modelled.
- ResultLines.LineReadsBack: assumes texts without commas and newlines; the client writes texts as they are, so others cannot be told apart when the file is read.
- ClientResults.Sort: the library sort is an insertion sort behind a contract that leaves the order of ties open.
- ClientInput.ReadAndParse: a file that cannot be opened, for which the loop never ends, is not modelled; case conversion is that of the ASCII letters.
- Server.InvAlways: each unlocked read is one atomic step. Enabling the filter is one step as well: a request between the setting of the flag and the creation of the filter (`server/src/Dictionary.cpp:27-29`), which would use a filter that is not there, and effects of the memory model are not modelled.
- ClientResults.SaveResults: the average-latency line that ends the file (`client/src/TestClient.cpp:203-204`) is not modelled.
- Floating-point sizing of the filter, salt generation, `contains_none`, and the free operators that copy before they combine.
- Protobuf messages, sockets, libevent, accepting connections, signals, options, printing, timings and average latency.
- The two-second delay before an event loop ends: a worker may leave its loop at any time after it was asked to.
- Start-up: threads are assumed to have their socket pairs before the first dispatch.
