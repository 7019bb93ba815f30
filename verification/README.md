# Verified models of the toolkit's stateful core

This project models, in Dafny, the parts of the toolkit whose correctness is hardest to see from the code,
and proves what they promise. `dafny verify dfyconfig.toml` checks everything.

| part | modules | what it is about |
|---|---|---|
| Blocking deque | `DequeModel`, `DequeIteration`, `WeakConsistency`, `LinkedDeque`, `TimeoutCondition`, `BlockingDeque` | a doubly linked list in the heap whose removed nodes keep misleading links for the iterators that still stand on them, iterators that survive everything done to the deque, and the monitor protocol of its blocking operations |
| Timer wheel | `WheelModel`, `HashedTimerWheel` | slots, rounds and rescheduling as a countdown per timer, with the exact tick of every firing |
| Adaptive limiter | `VegasModel`, `Vegas`, `VegasMachine`, `VegasRuns`, `CoDelModel`, `CoDel`, `LimiterMachine`, `LimiterRuns` | the control law of the limit, its updates from lock-free samples, the drop controller of the queue, and the conservation of admissions |
| Passwords and sealed messages | `ByteStrings`, `Pbkdf2`, `AesEnvelope` | key derivation as in section 5.2 of RFC 8018; cipher block chaining as in section 6.2 of NIST SP 800-38A with the padding of section 6.3 of RFC 5652, and work keys sealed with a root key |
| Numbers as text | `ParseUint`, `JoinInts` | overflow-exact parsing in 64-bit arithmetic, and lists of integers joined and split |

`Wrappers`, `Arithmetic` and `Roots` hold what the parts share. `Usage` calls the objects of the deque and of the
wheel several times in a row, as a program would.

## How the models are built

Code that changes objects in place is a class with the same fields and methods, proved against a
specification on values (`LinkedDeque` against `DequeModel` and `DequeIteration`, `HashedTimerWheel` against
`WheelModel`, `Vegas` against `VegasModel`, `CoDel` against `CoDelModel`, and the methods of `Pbkdf2`,
`AesEnvelope`, `ParseUint` and `JoinInts` against the functions beside them). The hard properties are lemmas
about the specification, for every state and every run. Code that runs concurrently is a machine of atomic
steps (`BlockingDeque`, `VegasMachine`, `LimiterMachine`, which contains `VegasMachine`), and its theorems hold after every prefix of every
interleaving.

The deque is specified with some history that the program does not keep: every node ever linked has a
position (nodes at the front take a new least one, nodes at the back a new greatest one) and the moments at
which it was linked and unlinked. `Guides` says what the link of a node, live or dead, then still tells about
the live nodes; it is the invariant on which the iterators rest.

Square roots are compared as squares of integers. `MovedIsTruncation`, `QueueComparedInReals` and
`SpacingIsTruncation` show that this is what the formulas over real numbers, truncated, give.

## Where the code is not what one would expect

The models follow the code. These are the places where it differs from its comments or from a plain reading:

- **Timer wheel.** When the slot number of a new timer runs past the end of the wheel the code adds one to the
  rounds, although the wrapped slot already lies one pass away. Such a timer fires exactly one full round
  later than its delay rounded up to ticks (`PlacedFiresAfterGap`, `FiresExactlyWhenDue`). And the ticker does not
  wait for a timer: one that is started between two ticks loses the part of the tick that is already gone, so it
  can fire early. A timer of one tick does so unless its slot wraps (`OneTickFiresEarly`); in general the i-th
  firing comes before i delays have passed exactly if no slot has wrapped and the rounding up of i delays is
  less than the part that was gone (`EarlyIff`, `FirstEarlyIff`). It is early by less than a tick, and each
  firing comes at least a delay after the one before (`EarlyByLessThanATick`).
- **CoDel.** The drop cycle (`dropping`, `count`, `dropNext`) never changes the verdict: in every state it is
  that of the first-above check alone (`VerdictIsFaCheck`). A packet is therefore dropped exactly if it and all
  packets since one judged at least an interval before were above target (`DroppedIff`), whereas section 5 of
  RFC 8289 drops one packet per control-law spacing.
- **Limiter.** A completion gives its token back and then admits a queued request, in two steps. A request that
  enters in between takes the token as well, so more than 2048 requests can run. The excess is the most that an
  entry within 2048 ever made, together with the completions under way then, of more than 2048
  (`Conservation`). There is none exactly as long as every entry was roomy, which it can tell on entering
  (`NoExcessIff`, `AtMostMaxRunning`); completions that are one step make every entry roomy. And the bound is
  exact: for every n a run from the start of the code, in which the limit climbs from 8 to 2048 by real
  updates, has excess n with 2048 + n requests running (`MoreThanMaxCanRun`).
- **Opening sealed messages.** Only the last byte of the padding is looked at, and it may be zero.
  `GenuineIff` says exactly which byte strings are sealed messages, `AcceptsMoreThanSealed` that opening
  accepts others.
- **Number parsing.** A value out of range yields the greatest 64-bit number whatever the bit size asked for;
  `strconv.ParseUint`, which the code names as its model, documents the greatest number of that size.
- **Comment of `Wait`.** It says that `true` means signaled; the code returns `true` for an interrupt and
  `false` for a signal.

## Model

| member | source | states |
|---|---|---|
| DequeModel.PushFirstInv | gcollection/queue.go:77-92 | linking at the front keeps the linked shape and what every dead node's links still tell, and puts exactly the item before the contents |
| DequeModel.PushLastInv | gcollection/queue.go:96-112 | the same at the back |
| DequeModel.PopInv | gcollection/queue.go:115-155 | unlinking an end, with its self link, keeps the invariant and removes exactly the first (last) item |
| DequeModel.UnlinkInv | gcollection/queue.go:158-175 | unlinking any live node, whichever of the three branches runs, removes exactly that node's item, keeps the invariant, and leaves the links of nodes that were dead before as they were |
| DequeModel.Adjacent | gcollection/queue.go:34-42 | live neighbours are linked to each other in both directions, and the outer links of the two end nodes are nil |
| LinkedDeque.Deque.LinkFirst | gcollection/queue.go:77-92 | the heap after the call is the specified front insertion of a new node; it fails, changing nothing, exactly at capacity |
| LinkedDeque.Deque.LinkLast | gcollection/queue.go:96-112 | the same at the back |
| LinkedDeque.Deque.UnlinkFirst | gcollection/queue.go:115-134 | the heap after the call is the specified pop and the result the first item, or nothing and no change if empty |
| LinkedDeque.Deque.UnlinkLast | gcollection/queue.go:137-155 | the same at the back |
| LinkedDeque.Deque.UnlinkNode | gcollection/queue.go:158-175 | the heap after the call is the specified removal of that node, dead nodes' links untouched |
| LinkedDeque.Deque.OfferFirst | gcollection/queue.go:205-213 | refuses nil and a full deque without any change; otherwise the contents become the item followed by the old contents, by the specified insertion of a new node, and only new nodes join the heap of the deque |
| LinkedDeque.Deque.OfferLast | gcollection/queue.go:217-225 | the same at the back |
| LinkedDeque.Deque.PollFirst | gcollection/queue.go:255-260 | returns and removes the first element of a sequence by the specified pop, nil without any change if there is none |
| LinkedDeque.Deque.PollLast | gcollection/queue.go:286-291 | the same at the back |
| LinkedDeque.Deque.PeekFirst | gcollection/queue.go:351-361 | the first element, or nil |
| LinkedDeque.Deque.PeekLast | gcollection/queue.go:365-375 | the last element, or nil |
| LinkedDeque.Deque.RemoveFirstOccurrence | gcollection/queue.go:384-397 | succeeds exactly if the element occurs, and then removes its first occurrence and nothing else |
| LinkedDeque.Deque.RemoveLastOccurrence | gcollection/queue.go:406-419 | succeeds exactly if the element occurs, and then removes its last occurrence and nothing else |
| LinkedDeque.Deque.ToSlice | gcollection/queue.go:436-444 | writes within bounds and returns exactly the contents in order |
| Usage.IterateWhileOthersChange | gcollection/queue.go:205-260 | an iterator that is used on after its deque was popped and added to is still sound, and hands out the item that it promised before |
| DequeIteration.SuccGuides | gcollection/queue.go:533-545 | from any node ever linked, live or dead, `succ` gives nil or a live node; of the nodes that were linked while the given one was, it passes over none ahead and returns to none behind |
| DequeIteration.LinkLeadsOn | gcollection/queue.go:533-545 | the measure that makes the loop of `succ` end: a link that is neither nil nor a self link leads strictly onward |
| DequeIteration.AdvanceInv | gcollection/queue.go:509-531 | `Next` keeps the iterator's invariant |
| DequeIteration.RemovalKeepsIter | gcollection/queue.go:170-171 | an iterator stays sound when any node is unlinked under it |
| DequeIteration.InsertionKeepsIter | gcollection/queue.go:77-112 | an iterator stays sound when a node is linked at either end |
| LinkedDeque.DequeIterator.SuccOf | gcollection/queue.go:533-545 | the loop ends and finds the specified successor, jumping from a self link to the end of the deque |
| LinkedDeque.DequeIterator.Next | gcollection/queue.go:509-531 | hands out the item that the promised node came with even if it was removed since, and takes the specified step |
| LinkedDeque.DequeIterator.Remove | gcollection/queue.go:548-560 | takes exactly the last returned node's item out of the contents if that node is still there, changes nothing of the deque otherwise, forgets the node, and fails without a preceding `Next` |
| WeakConsistency.StepGood | gcollection/queue.go:467-560 | every operation of the deque or the iterator keeps both invariants, and no node is forgotten, moved or revived, nor are the links of a dead node ever written |
| WeakConsistency.StepItems | gcollection/queue.go:77-175 | what each operation of the deque or the iterator does to the contents, `Remove` of the iterator included |
| WeakConsistency.RunGood | gcollection/queue.go:467-560 | the same for whole interleavings |
| WeakConsistency.WeaklyConsistent | gcollection/queue.go:467-545 | in every interleaving no node is returned twice, `HasNext` is never followed by nil, and at the end the nodes that stayed all the time have been returned exactly once, in (reversed) deque order |
| TimeoutCondition.TimeoutCond.AddWaiter | gconcurrent/cond.go:24-29 | counts one more in 64 bits and fails exactly on overflow |
| TimeoutCondition.TimeoutCond.RemoveWaiter | gconcurrent/cond.go:31-38 | counts one less through the wrapping addition and fails exactly at zero |
| TimeoutCondition.TimeoutCond.BeginWait | gconcurrent/cond.go:46-51 | a waiter is counted and leaves with the current channel |
| TimeoutCondition.TimeoutCond.FindsClosed | gconcurrent/cond.go:55-57 | a captured channel is found closed exactly if there was an interrupt since |
| TimeoutCondition.TimeoutCond.Interrupt | gconcurrent/cond.go:72-77 | the current channel, and no other, gets closed and a fresh one replaces it |
| BlockingDeque.Safety | gcollection/queue.go:229-347 | in every interleaving: one thread in the critical section, each waiter counter equal to the number of threads inside its wait, contents within capacity, and accepted items = present items + handed-out items as multisets |
| BlockingDeque.StepExact | gconcurrent/cond.go:24-61 | every step keeps `hasWaiters` equal to the number of threads inside `Wait` |
| BlockingDeque.CounterNeverPanics | gconcurrent/cond.go:31-38 | a thread that leaves `Wait` always finds itself counted, so `removeWaiter` never panics; `addWaiter` can only with 2^64 threads |
| BlockingDeque.StepConserves | gcollection/queue.go:77-175 | no step loses an item, hands one out twice or exceeds the capacity |
| BlockingDeque.HowAttemptsEnd | gcollection/queue.go:203-347 | which attempts end an operation, with what effect on the contents and, for takes without an item, as interrupted before expired; all others register on the condition for room or for an item |
| BlockingDeque.WaitingPutLands | gcollection/queue.go:229-251 | along every run a put that waits ends only with its item in |
| BlockingDeque.SignalsWake | gcollection/queue.go:90-132 | a put that succeeds wakes one of those in a select for an item if there is any, a take one of those for room, and nobody else |
| BlockingDeque.AttemptOnList | gcollection/queue.go:77-175 | what an attempt does to the contents is what the pointer operation does to the linked deque, and the item handed out is that of the node unlinked |
| BlockingDeque.ListAlongRun | gcollection/queue.go:77-347 | along every run there is a linked deque, changed by the pointer operations of the attempts only, that keeps its shape and holds the contents at every moment |
| BlockingDeque.FirstInFirstOut | gcollection/queue.go:242-251 | with puts at the back and takes at the front only, taken ++ present = accepted at every moment |
| BlockingDeque.InterruptReachesEarlierWaiters | gconcurrent/cond.go:46-77 | a wait ends with true only if its condition was interrupted after this very waiter captured its channel |
| BlockingDeque.InterruptedTake | gcollection/queue.go:318-347 | a take fails as interrupted only on an empty deque, and after its last wait (no release of the lock came after the one that began it) was ended by an interrupt that came after that wait began |
| BlockingDeque.InterruptedTakeHappens | gcollection/queue.go:318-330 | for every capacity there is a run in which a take fails as interrupted |
| WheelModel.TicksLeast | gtime/timerwheel.go:162-173 | a delay takes the least whole number of ticks that covers it |
| WheelModel.PlacedFiresAfterGap | gtime/timerwheel.go:162-206 | the slot and rounds computed make a timer fire after exactly ceil(delay/tick) ticks, plus one whole round if its slot wraps around; the slot is in bounds and the rounds are not negative |
| WheelModel.GapInTicks | gtime/timerwheel.go:162-190 | the number of ticks to the firing in terms of the delay in ticks alone: one round more if (n - 1) mod count + 1 slots past the cursor is the end of the wheel or beyond |
| WheelModel.TickCountsDown | gtime/timerwheel.go:209-246 | each tick takes one off what every pending timer has left, fires exactly those with one left, and restarts those with firings left |
| WheelModel.TwoLoopsMakeATick | gtime/timerwheel.go:78-86 | fetching and then notifying is one such tick |
| WheelModel.FiresExactlyWhenDue | gtime/timerwheel.go:118-124 | whatever else is scheduled, cancelled or fired: a timer fires on a tick if and only if that is the due tick of one of the firings asked for, or of one of 268435455 if none or fewer were asked for |
| WheelModel.CancelledForGood | gtime/timerwheel.go:153-160 | along every run a cancelled timer is neither pending nor firing until it is started anew, and the other timers are as before |
| WheelModel.StaysOnSchedule | gtime/timerwheel.go:209-246 | along every run a timer's remaining ticks are its next due tick minus the ticks so far, and it is gone after its last firing |
| WheelModel.TicksCoverDelays | gtime/timerwheel.go:162-225 | in whole ticks the i-th firing takes at least i delays, and at most i rounds more than i times the delay rounded up |
| WheelModel.EarlyIff | gtime/timerwheel.go:73-79 | of a timer started any part of a tick after a tick: the i-th firing is early exactly if no slot has wrapped so far and rounding up i delays adds less than that part |
| WheelModel.FirstEarlyIff | gtime/timerwheel.go:162-188 | the first firing is early exactly if the guard of the wrap is not met and rounding up the delay adds less than that part |
| WheelModel.OneTickFiresEarly | gtime/timerwheel.go:162-188 | a delay of one tick fires early whenever it starts between two ticks in a slot that does not wrap |
| WheelModel.EarlyByLessThanATick | gtime/timerwheel.go:73-79 | a firing is early by less than a tick, late by at most i ticks and rounds, and at least a delay after the one before |
| HashedTimerWheel.TimerWheel.Place | gtime/timerwheel.go:162-190 | the arithmetic on the fields of the timer gives the specified slot and rounds |
| HashedTimerWheel.TimerWheel.ScheduleTimeOut | gtime/timerwheel.go:162-206 | adds exactly this timer to the pending ones, in the one slot its index names, keeping its identifier or taking the new one |
| HashedTimerWheel.TimerWheel.AfterFunc | gtime/timerwheel.go:109-130 | the two errors change nothing; otherwise the timer is pending with the specified entry; only new objects join the wheel |
| HashedTimerWheel.TimerWheel.Cancel | gtime/timerwheel.go:153-160 | afterwards the identifier is in no slot, and the slots are otherwise the same |
| HashedTimerWheel.TimerWheel.FetchExpired | gtime/timerwheel.go:209-225 | in any order of the map, takes exactly the expired timers out of the slot and one round off the others |
| HashedTimerWheel.TimerWheel.NotifyExpired | gtime/timerwheel.go:228-246 | counts one firing for each fetched timer and reschedules exactly those with firings left |
| HashedTimerWheel.TimerWheel.Tick | gtime/timerwheel.go:78-86 | a tick on the slots is a tick of the countdown on the same objects; what fires is exactly what was expired, each once |
| Usage.StartAndTurn | gtime/timerwheel.go:53-130 | a timer started on a new wheel fires on the k-th of any number of ticks if and only if k is the due tick of one of its firings |
| VegasModel.MovedIsTruncation | grate/vegas.go:133-166 | the stored limit is the truncated clamp of limit plus a multiple of half its real square root |
| VegasModel.QueueComparedInReals | grate/vegas.go:134-156 | the integer tests decide exactly the real comparisons of the estimated queue with the thresholds |
| VegasModel.NewLimitInReals | grate/vegas.go:133-161 | with t half the real root of the limit and q the real queue: limit - t on a drop; unchanged unless half the limit was in flight; else plus 6t, 3t, t for q below t, 2t, 3t, minus t for q above 6t, unchanged in between, each truncated and clamped |
| VegasModel.UpdateInReals | grate/vegas.go:108-161 | a whole update: the window of five round trips between 500 and 2000 ms, the renewed or lowered minimum, the probe counter, and that law for the new minimum |
| VegasModel.NextResetIff | grate/vegas.go:118-126 | after a reset the next one comes with the first window of few requests from number 3 limit + random on |
| VegasModel.UpdateKeeps | grate/vegas.go:108-166 | every update keeps the limit in 8..2048, moves it by at most three square roots, leaves 0 < minRTT <= lastRTT, never raises it after a drop, and opens a window of 500 to 2000 ms |
| VegasModel.LongerTripsNeverRaise | grate/vegas.go:133-161 | all else equal, a longer round trip never gives a higher limit |
| VegasModel.MinimumSinceReset | grate/vegas.go:118-131 | along every run minRTT is the least lastRTT since the latest probe reset, or since the first update |
| VegasModel.DropsReachMinimum | grate/vegas.go:137-142 | from any limit, 170 windows in a row with drops bring it to 8 |
| VegasModel.GrowthReachesMaximum | grate/vegas.go:144-149 | from any limit, 43 saturated windows in a row without drops and with a queue below the threshold bring it to 2048 |
| VegasModel.ConvergingRunsExist | grate/vegas.go:78-96 | from every state there are runs of every length as those two results speak of, each window ending after the update time as the code demands |
| Vegas.Sample.Add | grate/sample.go:14-27 | adds one entry: total, count, maximum and drop mark |
| Vegas.WindowIs | grate/sample.go:14-47 | over a window the measurements are the number of entries, the most in flight, whether any was dropped, the sum of the round trips, and their truncated mean |
| Vegas.Vegas.Acquire | grate/vegas.go:60-64 | takes a token and succeeds exactly within the limit |
| Vegas.Vegas.Done | grate/vegas.go:66-97 | gives the token back; an ignored call changes nothing else; the 16th or later entry after the window replaces the sample and makes the specified update unless the mean is not positive |
| VegasMachine.Safety | grate/vegas.go:60-98 | in every interleaving of atomic steps: the in-flight counter is the number of tokens held, the limit is in range, every sample is the sum of its entries, no entry is counted before it is added, and the mutex is exclusive |
| VegasMachine.UpdatesAreARun | grate/vegas.go:78-131 | in every interleaving, whenever the mutex is free the control state is that of a run of the control law over the completed updates, and minRTT is the least round trip since the latest reset |
| VegasMachine.FirstReset | grate/vegas.go:40-47 | from the start the first reset comes with the first such window from the hundredth on |
| VegasRuns.UninterruptedCallback | grate/vegas.go:66-97 | the atomic steps of a callback, all of the one request, add up to its entry in the sample and, at the 16th or later entry after the update time, to the specified update |
| VegasMachine.MeanNotBelowCounted | grate/sample.go:29-35 | the mean a reader computes is never below that of the entries it counted |
| VegasMachine.MaximumCovers | grate/sample.go:19-23 | the recorded maximum never decreases and covers every counted entry |
| VegasMachine.UpdatedOnce | grate/vegas.go:78-96 | no sample feeds two updates, none with fewer than 16 entries does, and never the current one |
| VegasMachine.GuardsHold | grate/vegas.go:78-96 | a request waits for nothing but the mutex and its callback, and the bound given to the random number of a probe reset is positive |
| VegasMachine.NoDeadlock | grate/vegas.go:79-85 | while any request is inside `Acquire` or its callback, one of them can take a step |
| CoDelModel.SpacingIsTruncation | grate/codel.go:132-135 | the spacing is the truncated real quotient of the interval and the root of the count |
| CoDelModel.VerdictIsFaCheck | grate/codel.go:149-190 | in every state and through every branch the verdict is that of the first-above check |
| CoDelModel.DropCycle | grate/codel.go:149-190 | when the drop cycle is entered, left, continued and begun again, and what count and next drop time it then has, the spacing said with squares |
| CoDelModel.Run | grate/codel.go:149-190 | after any sequence of packets, dropping implies a count of at least one and a first-above time |
| CoDelModel.FaTimeOfRun | grate/codel.go:137-146 | the first-above time is the start of the current run above target plus an interval, or zero below target |
| CoDelModel.DroppedIff | grate/codel.go:137-190 | a packet is dropped exactly if its run above target began with an earlier packet judged at least an interval before |
| CoDelModel.DroppedIffAboveForAnInterval | grate/codel.go:137-190 | with positive interval and clock: exactly if it has been above target for an interval |
| CoDelModel.DropNextBounded | grate/codel.go:132-188 | the next drop time never exceeds the latest time seen by more than an interval |
| CoDel.CoDel.RunJudge | grate/codel.go:149-190 | the in-place branches compute the specified state and verdict, and never use the control law with a count below one |
| CoDel.CoDel.Pop | grate/codel.go:113-130 | consumes exactly a prefix of the queue: up to the first packet whose sender listens and that is not dropped, which it admits, or all of it |
| CoDel.CoDel.Enqueue | grate/codel.go:89-94 | appends the packet, or refuses it exactly when 2048 wait |
| LimiterMachine.StepInv | grate/limiter.go:45-65 | every step keeps the inner machine's invariant, the stages of the requests, and the bounds on admissions and running requests |
| LimiterMachine.Conservation | grate/limiter.go:45-65 | in every interleaving: in-flight counter = tokens held, limit in range, admissions through the queue <= completions, running requests <= 2048 + excess |
| LimiterMachine.NoExcessIff | grate/limiter.go:52-64 | the excess is zero exactly as long as every entry found 2048 in flight, or room for itself and the completions under way |
| LimiterMachine.AtMostMaxRunning | grate/limiter.go:61-64 | under that condition on the entries at most 2048 requests run |
| LimiterMachine.AtomicIsRoomy | grate/limiter.go:61-64 | completions that are one step meet the condition |
| LimiterMachine.RejectedIff | grate/codel.go:83-130 | a request is rejected exactly by a full queue, by its context, or by a drop verdict that reaches it, and admitted exactly by one to keep |
| LimiterMachine.VerdictsAndAnswers | grate/codel.go:113-130 | the verdict of a step is that of the first-above check, and a completion stops popping when it has admitted somebody |
| LimiterMachine.RejectedNeverRuns | grate/limiter.go:52-57 | along every run a rejected request never runs |
| LimiterMachine.QueueIsFirstInFirstOut | grate/codel.go:89-116 | along every run the packets received, followed by those waiting, are those pushed, in order |
| LimiterRuns.Climbs | grate/vegas.go:60-98 | from the start, by real requests and updates, the limit rises by 8 a window until it is 2048 |
| LimiterRuns.MoreThanMaxCanRun | grate/limiter.go:61-64 | the bound is exact: for every n a run from the start, on one clock, with excess n and 2048 + n requests running |
| ByteStrings.XorTwice | gcrypto/aes128.go:98-99 | xoring twice with the same bytes gives them back |
| ByteStrings.OctetsAreBigEndian | gcrypto/pbkdf2.go:36-39 | the four octets write the number, most significant first |
| Pbkdf2.XorInto | gcrypto/pbkdf2.go:51-53 | changes exactly the last block of the buffer, to its xor with the new hash |
| Pbkdf2.AppendBlock | gcrypto/pbkdf2.go:31-55 | leaves the earlier blocks alone and appends the xor of all the hashes of this block |
| Pbkdf2.DeriveKey | gcrypto/pbkdf2.go:22-57 | returns the first keyLen bytes of T_1 \|\| T_2 \|\| ... of the standard |
| Pbkdf2.BlockIsXorOfChain | gcrypto/pbkdf2.go:31-54 | every byte of a block is the xor over as many chained hashes as iterations, the first of salt and big-endian block number |
| Pbkdf2.DerivedByte | gcrypto/pbkdf2.go:22-57 | byte k of a key of any length is byte k mod hLen of block k div hLen + 1 |
| Pbkdf2.ShorterIsPrefix | gcrypto/pbkdf2.go:25-56 | a shorter key is a prefix of a longer one |
| Pbkdf2.BlockNumbersDistinct | gcrypto/pbkdf2.go:36-40 | the octets tell block numbers apart exactly modulo 2^32 |
| Pbkdf2.ComparePassword | gcrypto/pbkdf2.go:75-87 | accepts exactly if both texts decode and the stored key is the one derived with the stored salt |
| Pbkdf2.GeneratePassword | gcrypto/pbkdf2.go:68-72 | the stored texts encode the derived key and the salt |
| Pbkdf2.StoredAccepts | gcrypto/pbkdf2.go:68-87 | a generated entry accepts a password exactly if it derives the same key and the same length is asked for |
| AesEnvelope.UnchainChain | gcrypto/aes128.go:98-99 | chained decryption undoes chained encryption for every vector and key |
| AesEnvelope.ChainUnchain | gcrypto/aes128.go:148-149 | and the other way around: chaining is a bijection on whole blocks |
| AesEnvelope.ChainedBlock | gcrypto/aes128.go:148-149 | each block is the encryption of its text xored with the block before, as the standard defines |
| AesEnvelope.UnchainedBlock | gcrypto/aes128.go:98-99 | each block decrypts from itself and the one before alone |
| AesEnvelope.SealedLength | gcrypto/aes128.go:132-140 | a message of n bytes seals to 16 (n div 16 + 2) bytes |
| AesEnvelope.PaddingBytes | gcrypto/aes128.go:132-136 | the plain text is followed by n bytes of value n, for n from 1 to 16, up to whole blocks |
| AesEnvelope.OpensChained | gcrypto/aes128.go:98-107 | any chained blocks open to all but as many bytes as the last one says, or are refused if that is more than 16 |
| AesEnvelope.OpensWholeBlocksOnly | gcrypto/aes128.go:88-90 | the size is refused exactly below 32 bytes or off the block |
| AesEnvelope.RoundTrip | gcrypto/aes128.go:84-153 | opening a sealed message gives it back, for every message, key and vector |
| AesEnvelope.GenuineIff | gcrypto/aes128.go:84-108 | a byte string is a sealed message exactly if its length fits and its text is well padded; sealing again what it opens to gives it back |
| AesEnvelope.AcceptsMoreThanSealed | gcrypto/aes128.go:102-106 | for every vector there is a byte string that opens and that no message seals to |
| AesEnvelope.EnvelopeRoundTrip | gcrypto/aes128.go:168-235 | opening an envelope gives the text, for every work key of at least 16 bytes and any two vectors |
| AesEnvelope.OpensByKeyPart | gcrypto/aes128.go:216-235 | an error of the key part is the result, and otherwise the first 16 bytes of the key open the text |
| AesEnvelope.KeyChain | gcrypto/aes128.go:47-55 | the stretched key comes from a chain of hashes, each of the one before and the big-endian number of the round |
| AesEnvelope.PanicsIff | gcrypto/aes128.go:60-66 | opening an envelope panics exactly if its key part opens to fewer than 16 bytes |
| AesEnvelope.Crypto.constructor | gcrypto/aes128.go:47-66 | the root key is the first 16 bytes of 5000 chained hashes |
| AesEnvelope.Crypto.EncryptBlocks | gcrypto/aes128.go:129-153 | the padding loop and the buffer hold the sealed message, or the random source failed |
| AesEnvelope.Crypto.DecryptBlocks | gcrypto/aes128.go:84-108 | stays in bounds on every input and gives the text or exactly the specified error |
| AesEnvelope.Crypto.EncryptWithKey | gcrypto/aes128.go:168-189 | succeeds exactly for a long enough key and a working random source, with an envelope that opens to the text and whose key part opens to the key |
| AesEnvelope.Crypto.DecryptWithKey | gcrypto/aes128.go:216-235 | the text of the envelope or the first error met |
| AesEnvelope.Crypto.EncryptTextWithKey | gcrypto/aes128.go:194-203 | the same through a text codec: what it returns opens to the text |
| AesEnvelope.Crypto.DecryptTextWithKey | gcrypto/aes128.go:238-256 | decodes both parts before it opens them |
| ParseUint.CutoffIff | gid/gstack.go:130-136 | a number reaches the cutoff exactly if its product with the base leaves 64 bits |
| ParseUint.RoundIsExact | gid/gstack.go:106-121 | the wrapped arithmetic of one round detects exactly the exact numbers that pass the maximum |
| ParseUint.MaxValueOfBits | gid/gstack.go:47-83 | the wrapped shift and subtraction give 2^bitSize - 1 for every size from 1 to 64 |
| ParseUint.MaxValueOfWord | gid/gstack.go:47-83 | and the greatest word for size zero and for every size that shifts the one out of the word |
| ParseUint.ParsedOkIff | gid/gstack.go:44-136 | parsing gives n exactly if the digits are non-empty, all below the base, and write n, and n fits |
| ParseUint.DigitIff | gid/gstack.go:88-99 | the digits are the figures and the letters of the alphabet in order and in either case |
| ParseUint.BaseZero | gid/gstack.go:49-78 | which base the prefixes choose for base zero, and which bases are refused |
| ParseUint.ExceedsIffTooLarge | gid/gstack.go:106-120 | for a string of digits, some beginning passes the maximum exactly if the whole value does |
| ParseUint.ParseDigits | gid/gstack.go:85-123 | the loop fails with a range error exactly if a valid beginning is too large, with a syntax error exactly if none is and some digit is bad, and otherwise returns the value |
| ParseUint.Parse | gid/gstack.go:44-128 | with the prefixes of base zero and the error order of the code: the specified result, with zero or the greatest word beside the error |
| JoinInts.IntRoundTrip | gstr/join.go:24 | every 64-bit integer reads back from its decimal form |
| JoinInts.ParsedIntOkIff | gstr/join.go:48 | reading gives x exactly on digits with at most one sign that write x |
| JoinInts.ParsedIntRange | gstr/join.go:48-51 | digits that write a number beyond 64 bits are out of range |
| JoinInts.IntsErrIff | gstr/join.go:47-51 | the error is that of the first part that is not an integer |
| JoinInts.CanonicalIff | gstr/join.go:46-52 | printing what was read gives the same text exactly if it had no plus sign, needless zero or negative zero |
| JoinInts.Join | gstr/join.go:19-38 | the buffer loop with its truncation writes the numbers with commas between them, and nothing for no numbers |
| JoinInts.Split | gstr/join.go:41-55 | the list of the parts' integers, or the error of the first part that is not one |
| JoinInts.PartsGlue | gstr/join.go:45 | the parts contain no comma and glue back to the text |
| JoinInts.GluedParts | gstr/join.go:45 | they are the only way to write the text like that |
| JoinInts.ListRoundTrip | gstr/join.go:19-55 | splitting a joined list gives the list, for every list of 64-bit integers |
| JoinInts.TextRoundTripIff | gstr/join.go:19-55 | joining a split text gives the text exactly if all its parts were canonical |

## Left out

- Real time, tickers, goroutines and `sync.Pool`: times and random numbers are parameters, concurrent calls are interleaved steps, and which drop channel a pool hands out is free.
- Liveness: signals and pops are sends that do not block and can be lost, so no wake-up or admission is promised to come.
- BlockingDeque.Safety: puts retry for ever in the code when their context is done; runs of the model contain that loop but nothing is said about its end.
- BlockingDeque.StepConserves: a step of a thread acts on the contents in one go; AttemptOnList ties it to the pointer operation, whose single writes the lock hides.
- LinkedDeque.Deque.LinkFirst: signals to the conditions are steps of BlockingDeque, not of this class.
- HashedTimerWheel.TimerWheel.Tick: advancing, fetching and notifying are one step; the cursor moves outside the lock in the code, and a fetched timer can be cancelled in between.
- WheelModel.EarlyIff: ticks are evenly spaced; a late ticker or a slow callback goroutine is not modelled.
- HashedTimerWheel.TimerWheel.AfterFunc: identifiers are fresh, as the generator promises; running the callback is not modelled. Tick and wheel count must be positive, without which the code divides by zero.
- `After` of the timer wheel and its delivery by channel.
- VegasModel.MovedIsTruncation: exact real arithmetic instead of rounded floating point.
- VegasModel.UpdateKeeps: times and counters are unbounded integers, without 64-bit wrap-around.
- VegasMachine.MeanNotBelowCounted: holds for round trips that are not negative, that is, for a clock that does not run backwards.
- CoDelModel.DroppedIff: clock plus interval must not be zero, since zero stands for "not above target".
- CoDelModel.DropNextBounded: for an interval that is not negative.
- LimiterMachine.StepInv: who holds a pooled drop channel is left free, so two waiting requests may share one.
- Pbkdf2.DeriveKey: the hash is any function of fixed output length; a negative key length, on which the code panics, is excluded.
- Pbkdf2.ComparePassword: equality instead of a comparison in constant time.
- AesEnvelope.RoundTrip: the block cipher is any family of permutations; base64 is any codec that decodes what it encodes.
- AesEnvelope.Crypto.EncryptBlocks: padding appended into spare capacity of the caller's slice.
- JoinInts.IntRoundTrip: the standard library's integer formatting and parsing follow the rules of ParseUint in base ten with a sign.
- Statistics, `AddFirst`/`AddLast` (an offer with another error), goroutine identifiers, and all other packages: caches, files, network, strings, workers.
