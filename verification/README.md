# A verified model of the TCPDirect test suite's algorithms

The TCPDirect test suite drives the TCPDirect ("Zetaferno", ZF) library over RPC. Around the plumbing it
holds a number of real algorithms: the agent's table of stack contexts and the threads that poll the stacks,
the muxer event checker and the parsers of its specifications, the schedulers of the load generators, and
helpers that split, send, receive, overfill and drain byte streams. This project models those algorithms in
Dafny and proves what they promise. `dafny verify dfyconfig.toml` checks everything.

Code that updates state is modelled as classes and methods with loops; each method is proved against a
function or a predicate over values, and the promises are lemmas about these. The library, the network, the
muxer and the C runtime appear as small classes whose methods may do anything their contract allows
(`Net`, `Zocket`, `Sockets`, `Muxer`, `Channel`, `Peers`). Code that several threads execute is a state machine whose
steps interleave freely.

| file | models |
|---|---|
| `StackTable.dfy` | the slot table of stack contexts: first fit, growth by `2 * max + 1`, refinement of a finite map |
| `StackAgent.dfy` | RPC handlers that allocate, free and poll stacks, interleaved with the polling threads |
| `AgentTable.dfy` | the table of these interleaved handlers: refinement of sequential calls, and its slot count |
| `ThreadSpawner.dfy` | many threads allocating and freeing stacks, a stop flag, and the join at the end |
| `EventChecker.dfy` | repeated muxer waits, the three matching passes, and the table built from expected events |
| `MuxerSpec.dfy`, `Strings.dfy` | the two scanners of a muxer specification and the event parser |
| `ListenPeers.dfy` | matching accepted zockets to peers by address |
| `Overfill.dfy` | which connection sends next until all buffers are full |
| `BunchBudget.dfy` | bunches of packets under a limit of bytes per connection |
| `MsgMore.dfy` | an iovec of random lengths with a given total and bounded ends |
| `Iovecs.dfy` | the five splitters of a buffer, and the comparison of a split with data |
| `UdpFlooder.dfy` | sending one datagram for a given time, with counters |
| `ZftReceive.dfy` | two ways of receiving from a TCP zocket as one stream operation |
| `ZftOverfill.dfy` | sending until nothing is accepted, keeping a copy |
| `ConnDrain.dfy` | reading many connections until they are quiet, and comparing |
| `LengthExpr.dfy` | a signed sum of numbers and structure names |
| `Sums.dfy`, `Basics.dfy` | sums of sequences; types and constants that several modules share |

## What turned out differently

- `ThreadSpawner`: when `pthread_join()` fails, the spawner goes on and returns although the thread may still
  read `thread_args` in its frame. For every number of threads and every set of failing joins there is a run that
  ends so for just these threads (`FailedJoinsDangle`), and all runs with that set end safely exactly when it is
  empty (`SafeIffAllJoined`). The documented result 0 is only possible when there are no threads to create
  (`ReturnValue`).
- `LengthExpr`: a structure name that begins with an underscore is accepted as a token but always counts as 0,
  and one of 249 characters or more is cut when "struct " is put in front of it, so it is looked up under another
  name. A printed sum is read as its value for every assignment of sizes exactly when all such names cancel out in
  it (`SumRoundTrip`); a single name exactly when it begins with a letter and is shorter (`NameRoundTrip`).
- `MsgMore`: with an MSS of 1, "smaller than MSS" gives an upper bound of 0 below the lower bound of 1, so the
  bound of that buffer is broken (`TinyMss`); `Build` says exactly when the bounds hold.
- `EventChecker`: "TRUE exactly when the reports are the expected events" fails for a zocket with an entry that
  asks for events and is not its first: every entry is counted, so after all the right reports the checker waits for
  more, and a zero return fails the test (`WaitsInVain`). The claim holds in every outcome if and only if each entry
  that asks for events is the first of its zocket (`PassesExactlyWhenEqual`, and `MuxerCheckExactlyWhen` in terms of
  the given events and descriptions); distinct zockets suffice (`DistinctEachFirst`).
- `EventChecker`: an event with an empty mask for a zocket that expects nothing is accepted
  (`EmptyReportAccepted`), so acceptance means equality of sets exactly for reports without empty masks
  (`AcceptanceMeans`). With a timeout of 0 a later wait is given a negative timeout as soon as time has passed
  (`NegativeTimeout`; `WaitsForEver` is an instance).
- `MuxerSpec`: an empty specification creates no zocket, but the event scanner sees one empty component in it;
  on every other specification the two scanners agree component by component.

## Model

| member | source | states |
|---|---|---|
| StackTable.IndexOf | talib_zetaferno_ts/rpc.c:467-485 | lookup finds the first slot that holds the stack, or tells that none does |
| StackTable.PlaceRefinesInsert | talib_zetaferno_ts/rpc.c:402-456 | registering a stack that is not registered inserts it into the map the table stands for, leaves every other lookup alone, and keeps every stack in one slot only |
| StackTable.ClearRefinesRemove | talib_zetaferno_ts/rpc.c:495-525 | deleting removes exactly that stack from the map |
| StackTable.LookupRefinesMap | talib_zetaferno_ts/rpc.c:467-485 | a stack is found exactly when it is registered, and with its own thread |
| StackTable.StacksCount | talib_zetaferno_ts/rpc.c:410-435 | at most one registered stack a slot, and as many stacks as slots when none is free |
| StackTable.TableOverRuns | talib_zetaferno_ts/rpc.c:402-525 | over every run in which the allocator hands out unregistered stacks, also reused pointers: the table is the map, the slot count is the highest number of stacks registered at a time, capacity is 2^k - 1 and at most 2 * slots - 1, and all growths together copied fewer slots than the final capacity |
| StackTable.ContextTable.Get | talib_zetaferno_ts/rpc.c:467-485 | returns the first slot with the stack, or fails when there is none |
| StackTable.ContextTable.FindFree | talib_zetaferno_ts/rpc.c:410-414 | the first free slot, or the slot count |
| StackTable.ContextTable.Extend | talib_zetaferno_ts/rpc.c:416-435 | one more slot; the contents survive a reallocation; the counter is bumped even when realloc() fails |
| StackTable.ContextTable.Add | talib_zetaferno_ts/rpc.c:402-456 | succeeds exactly when no needed step fails; then the registry gains the stack with its new thread and the slot count stays the peak |
| StackTable.ContextTable.Del | talib_zetaferno_ts/rpc.c:495-525 | succeeds exactly when the stack is registered and its thread and iomux could be stopped; then the registry loses it, otherwise nothing changes |
| StackAgent.NextInv | talib_zetaferno_ts/rpc.c:142-760 | every step of every handler and thread, failing ones that end in abort() included, keeps the invariant on the lock, the slots, the memoised flag and the threads |
| StackAgent.NoUseAfterFree | talib_zetaferno_ts/rpc.c:203-233 | in every interleaving no thread is inside zf_stack_has_pending_work(), or can still enter it, with a freed stack, no lock holder primes a freed stack, and only live stacks are registered |
| StackAgent.CancelHitsOwnThread | talib_zetaferno_ts/rpc.c:142-167 | whatever the environment variable says by then, deleting agrees with adding on whether there is a thread, and pthread_cancel() hits the one that polls the stack |
| StackAgent.JoinedBeforeFree | talib_zetaferno_ts/rpc.c:553-569 | when zf_stack_free() of a stack is reached, every thread that was ever created for it, in any earlier state of the run, has exited |
| StackAgent.JoinWaits | talib_zetaferno_ts/rpc.c:298-311 | when pthread_join() returns, the thread of the slot, which was cancelled, has exited, and with it every thread of the stack |
| StackAgent.ThreadsStay | talib_zetaferno_ts/rpc.c:203-233 | what a step can do to a thread: none is dropped or given another stack, it exits only once cancelled, and is cancelled only to delete its own stack |
| StackAgent.ThreadStays | talib_zetaferno_ts/rpc.c:203-233 | so in every run a thread is there for the same stack in all later states, and stays exited |
| StackAgent.ThreadGoesOn | talib_zetaferno_ts/rpc.c:221-230 | a thread that is not cancelled can always go on: into the call, out of it, and round again |
| StackAgent.LiveIsWhatTheLibrarySays | talib_zetaferno_ts/rpc.c:528-569 | stacks become live in a successful zf_stack_alloc() and stop being so in a successful zf_stack_free(), and at no other step |
| StackAgent.FailuresAbort | talib_zetaferno_ts/rpc.c:528-569 | failing to add or delete, a negative result in a thread, and deleting a stack that is not registered end in abort(), after which nothing happens |
| StackAgent.FlagMemoised | talib_zetaferno_ts/rpc.c:142-167 | the flag is what the environment variable said at its first use, and never changes |
| StackAgent.AddingCreates | talib_zetaferno_ts/rpc.c:278-288 | adding creates the thread of the stack exactly when the flag, or at first use the environment variable, says so |
| StackAgent.LockHolderGoesOn | talib_zetaferno_ts/rpc.c:402-760 | the lock is never lost, also when the stack is not found: its holder can always go on and gives it back before it is idle; in pthread_join() it waits for a thread that was cancelled and can exit |
| AgentTable.OthersLeaveTable | talib_zetaferno_ts/rpc.c:402-525 | only writing a slot, creating its thread and resetting it, all under the lock, change the table |
| AgentTable.NextLinear | talib_zetaferno_ts/rpc.c:402-525 | every step advances the sequential table by exactly the call it completes: creating the thread by the registration of its handler's stack, the reset by the deletion of its handler's stack, every other step by none |
| AgentTable.AgentRefinesTable | talib_zetaferno_ts/rpc.c:402-569 | in every interleaving the slots, the capacity and the copied slots are what the calls completed by the steps of that run, in their order, make of an empty table, up to the registration under way |
| AgentTable.AgentRefinesMap | talib_zetaferno_ts/rpc.c:402-569 | outside a registration the table stands for the map that these calls build |
| AgentTable.SlotCountIsPeak | talib_zetaferno_ts/rpc.c:410-437 | in every state of every interleaving cur_stack_contexts_num is the highest number of stacks registered at the same time in that run so far |
| AgentTable.CapacityInRuns | talib_zetaferno_ts/rpc.c:416-435 | and max_stack_contexts_num is 2^k - 1, at least that number and at most 2 * it - 1, with fewer slots copied by all growths |
| ThreadSpawner.SpawnerSafety | talib_zetaferno_ts/rpc.c:1075-1200 | in every interleaving each thread owns at most one stack and no two the same; what is allocated and not given to zf_stack_free() is owned; after the return every joined thread is over, and with no failed join nothing reads thread_args and no stack was left without an attempt to free it |
| ThreadSpawner.OwnStep | talib_zetaferno_ts/rpc.c:1076-1107 | every step keeps the ownership of stacks |
| ThreadSpawner.JoinStep | talib_zetaferno_ts/rpc.c:1156-1200 | every step keeps what is known of the join loop, the flag and the result, also when creating threads stops half way |
| ThreadSpawner.ReturnValue | talib_zetaferno_ts/rpc.c:1109-1200 | the result is 0 or -1, and 0 only without any thread |
| ThreadSpawner.LiveIsWhatTheLibrarySays | talib_zetaferno_ts/rpc.c:1082-1104 | stacks become live in a successful alloc and are given to zf_stack_free() by the thread that got them; a failed free leaves them live |
| ThreadSpawner.ThreadGoesOn | talib_zetaferno_ts/rpc.c:1082-1104 | every thread can go on, and ends at the first test of the flag after it was set, never before |
| ThreadSpawner.FailedJoinsDangle | talib_zetaferno_ts/rpc.c:1184-1199 | for every number of threads and every set of failing joins, a run in which the spawner returns and all these threads still read thread_args |
| ThreadSpawner.SafeIffAllJoined | talib_zetaferno_ts/rpc.c:1075-1200 | for every set of failing joins: all runs in which just these fail end with every thread over and no stack left without an attempt to free it if and only if the set is empty |
| EventChecker.Match | zetaferno-ts/lib/zfts_muxer.c:822-894 | the three passes, for every table: a repeated zocket is reported first; otherwise the reports pass exactly when each carries the mask of the first entry of its zocket, which is in the set, and no expected zocket is missing |
| EventChecker.AcceptanceMeans | zetaferno-ts/lib/zfts_muxer.c:822-875 | for every table: the first two passes accept, and no report has an empty mask, exactly when the reports are the expected events as sets and the entries of each zocket are consistent |
| EventChecker.CountIsCardinality | zetaferno-ts/lib/zfts_muxer.c:781-785 | the number the checker waits for is at least the size of the expected set, and equal to it exactly when every entry that asks for events is the first of its zocket |
| EventChecker.ReportsAreDistinct | zetaferno-ts/lib/zfts_muxer.c:877-889 | without a repeated zocket there are as many reports as elements of their set |
| EventChecker.AcceptedCount | zetaferno-ts/lib/zfts_muxer.c:781-894 | accepted reports are as many as the expected events, and as many as the entries waited for exactly when each of these is the first of its zocket |
| EventChecker.EmptyReportAccepted | zetaferno-ts/lib/zfts_muxer.c:836-837 | an empty report for a zocket that expects nothing is accepted, though the sets differ |
| EventChecker.WaitMore | zetaferno-ts/lib/zfts_muxer.c:789-794 | a wait writes behind the events that are there and is given what is left of the timeout |
| EventChecker.Collect | zetaferno-ts/lib/zfts_muxer.c:787-820 | the waits and why waiting ended, as WaitsInOrder, WaitsUntilDeadline and VerdictIs spell them out |
| EventChecker.WaitsBounded | zetaferno-ts/lib/zfts_muxer.c:787-820 | no more waits than expected events, unless none is expected |
| EventChecker.WaitsInOrder | zetaferno-ts/lib/zfts_muxer.c:787-820 | each wait begins when the one before ended and is given what is left until the deadline, or no limit; after every wait but the last there were events, fewer than are waited for, and the deadline had not come |
| EventChecker.WaitsUntilDeadline | zetaferno-ts/lib/zfts_muxer.c:813-820 | with events missing, waiting ends in a comparison only when the deadline has come |
| EventChecker.VerdictIs | zetaferno-ts/lib/zfts_muxer.c:795-894 | the verdict is a function of the waits, the reports and the table |
| EventChecker.NegativeTimeout | zetaferno-ts/lib/zfts_muxer.c:791-794 | all waits of a check with a timeout end at its deadline; one is given a negative timeout exactly when the timeout is 0 and time has passed |
| EventChecker.WaitsForEver | zetaferno-ts/lib/zfts_muxer.c:791-794 | two waits of a check with timeout 0, the second of which is given -3 |
| EventChecker.CheckEvents | zetaferno-ts/lib/zfts_muxer.c:764-895 | the verdict, for every table: what was reported and why waiting ended; when every entry that asks for events is the first of its zocket, TRUE exactly when no wait failed and the reports have no repeated zocket and equal the expected set |
| EventChecker.FirstPasses | zetaferno-ts/lib/zfts_muxer.c:764-895 | for such tables, both directions for every outcome; FALSE and a zero return are only possible while reports are missing |
| EventChecker.WaitsInVain | zetaferno-ts/lib/zfts_muxer.c:781-820 | for every other table with room for its events: waits that bring exactly the expected events, and then a zero return that fails the check |
| EventChecker.PassesExactlyWhenEqual | zetaferno-ts/lib/zfts_muxer.c:764-895 | which tables make the check pass, in every outcome, exactly when no wait failed and the reports equal the expected set, no zocket twice |
| EventChecker.FewerEvents | zetaferno-ts/lib/zfts_muxer.c:42-51 | distinct events whose zockets are all described are no more than the descriptions |
| EventChecker.DescribedExpects | zetaferno-ts/lib/zfts_muxer.c:53-84 | the table of described zockets expects exactly the given events, of each zocket the first, and is consistent, however often a zocket is described or has events |
| EventChecker.FillDescribed | zetaferno-ts/lib/zfts_muxer.c:42-84 | succeeds exactly when the zocket of every event is described |
| EventChecker.DistinctTable | zetaferno-ts/lib/zfts_muxer.c:42-84 | with distinct events and descriptions the checker waits for as many events as are given with a nonempty mask |
| EventChecker.PlainExpects | zetaferno-ts/lib/zfts_muxer.c:85-95 | without descriptions the table expects the given events too |
| EventChecker.CheckMuxerEvents | zetaferno-ts/lib/zfts_muxer.c:27-101 | a missing description is reported before any wait; otherwise the verdict is that of the table for the given events, and when no zocket that has to report is listed twice it passes exactly when no wait failed and the reports are the given events with a nonempty mask |
| EventChecker.MuxerCheckExactlyWhen | zetaferno-ts/lib/zfts_muxer.c:27-101 | for which events and descriptions that holds in every outcome |
| Strings.SplitJoin | zetaferno-ts/lib/zfts_muxer.c:560-587 | splitting what was joined gives the components back |
| Strings.ComponentEnds | zetaferno-ts/lib/zfts_muxer.c:560-576 | a scanner that counts separators is in that component of the split when it meets the next separator or the end |
| Strings.SplitCount | zetaferno-ts/lib/zfts_muxer.c:542-548 | one component more than separators |
| MuxerSpec.ParseEvents | zetaferno-ts/lib/zfts_muxer.c:898-945 | no events for NULL; otherwise the mask is the union over the underscore-separated names, each without what is in front of its last dot; it fails exactly when one is unknown |
| MuxerSpec.CaseIgnored | zetaferno-ts/lib/zfts_muxer.c:921-934 | names that differ in the case of letters only mean the same event |
| MuxerSpec.EventNames | zetaferno-ts/lib/zfts_muxer.c:921-934 | the five known names, and "all" as the other four together |
| MuxerSpec.MaskOfMeans | zetaferno-ts/lib/zfts_muxer.c:909-944 | a list of names has a mask exactly when each is known, and the mask has just the events some name asks for |
| MuxerSpec.TerminateType | zetaferno-ts/lib/zfts_muxer.c:562-583 | the buffer with terminators in place of dots is read as what comes before the first dot |
| MuxerSpec.CountComponents | zetaferno-ts/lib/zfts_muxer.c:542-548 | the counting pass gives the number of components |
| MuxerSpec.CreateMzockets | zetaferno-ts/lib/zfts_muxer.c:521-588 | one zocket for each component, of its type and in order, inside the array; fails exactly when a type is unknown |
| MuxerSpec.PrepareEvents | zetaferno-ts/lib/zfts_muxer.c:607-648 | zocket k gets the events of component k, as far as both go; fails exactly when one of these cannot be parsed or prepared |
| MuxerSpec.PrintRoundTrip | zetaferno-ts/lib/zfts_muxer.c:521-648 | a printed list of types and nonempty event sets is read as these types and masks, in order and as many, by both scanners |
| MuxerSpec.PrintedThenRead | zetaferno-ts/lib/zfts_muxer.c:182-200 | creating and then preparing from one printed specification gives exactly its items; it fails exactly when EPOLLOUT is asked of a zocket that is not a connected TCP one |
| ListenPeers.Listener.Prepare | zetaferno-ts/lib/zfts_muxer.c:201-228 | one more peer at the end, the others kept, also when the array grows |
| ListenPeers.Listener.Invoke | zetaferno-ts/lib/zfts_muxer.c:259-283 | the last peer gets the bound address; fails exactly when there is none |
| ListenPeers.Listener.Process | zetaferno-ts/lib/zfts_muxer.c:373-418 | for accepts in any order: succeeds exactly when the remote addresses are those of the open peers, counted with repetition; then it was a bijection, every peer is closed and the count is 0 |
| ListenPeers.EveryPeerMatched | zetaferno-ts/lib/zfts_muxer.c:383-418 | as many accepts as peers, no peer matched twice: every peer is matched |
| ListenPeers.AcceptAll | zetaferno-ts/tcp/listen_backlog.c:154-185 | succeeds exactly when the remote addresses are distinct and all known; then each zocket is stored at the socket with its address |
| ListenPeers.EverySocketAssigned | zetaferno-ts/tcp/listen_backlog.c:154-185 | after success every Tester socket has its own zocket |
| Overfill.Sweep | zetaferno-ts/tcp/send_buffer_overfilling.c:158-180 | since a selection, a connection was selected once if the search has passed it, and not at all otherwise |
| Overfill.GradualIsFair | zetaferno-ts/tcp/send_buffer_overfilling.c:168-180 | gradual: between two consecutive selections of a connection every other that is still not overfilled was selected exactly once |
| Overfill.SuccessiveOrder | zetaferno-ts/tcp/recv_buffer_overfilling.c:135-147 | not gradual: everything below the selected connection is overfilled |
| Overfill.Overfiller.Select | zetaferno-ts/tcp/send_buffer_overfilling.c:171-178 | the first connection not overfilled, going round from the start; none exactly when all are |
| Overfill.Overfiller.SendOnce | zetaferno-ts/tcp/send_buffer_overfilling.c:185-221 | one send, on this connection; what it took is recorded, a failure is counted; the test ends for the errno exactly when it is neither EAGAIN nor, from a zocket, ENOMEM; bytes are conserved |
| Overfill.Overfiller.Run | zetaferno-ts/tcp/send_buffer_overfilling.c:158-229 | every turn made one send, on the connection it selected, and the turns are a schedule; there are no more of them than bytes taken and failures counted, and one for an unexpected errno; each connection holds what its sends were accepted for, counts how many of them failed, and is overfilled exactly at five failures (one from Tester); it ends for an errno exactly at the first unexpected one, and finishes only when all are overfilled |
| Overfill.Overfiller.TakeTurn | zetaferno-ts/tcp/recv_buffer_overfilling.c:125-171 | each turn follows the last one in the schedule and changes only the connection it selected; it ends the loop or uses up room or an allowed failure |
| BunchBudget.SomeoneHasRoom | zetaferno-ts/tcp/share_events_queue.c:271-274 | pigeonhole: while the bunch is not complete some connection has room for the next packet, however the packets were spread |
| BunchBudget.LimitIsTight | zetaferno-ts/tcp/share_events_queue.c:271-274 | a bunch of exactly the limit can fill every connection |
| BunchBudget.PacketFits | zetaferno-ts/tcp/share_events_queue.c:314-317 | the check excludes packets that fit on no connection, so the unsigned difference does not wrap |
| BunchBudget.Bunches.Choose | zetaferno-ts/tcp/share_events_queue.c:311-324 | a connection with room, or MAX_CONN_SELECT_ATTEMPTS draws that all found none |
| BunchBudget.Bunches.Send | zetaferno-ts/tcp/share_events_queue.c:116-161 | succeeds exactly when the result is not negative and, from Tester, everything; then exactly what the peer took is appended on the side that sent |
| BunchBudget.Bunches.SendBunch | zetaferno-ts/tcp/share_events_queue.c:304-330 | done exactly when bunch_size packets of allowed sizes were sent; the connections hold just these and never more than MAX_BYTES_PER_CONN; it fails for a send exactly when the last result was bad and all before were good; a failed choice was bad luck, since some connection had room for a packet of any size |
| BunchBudget.Bunches.Run | zetaferno-ts/tcp/share_events_queue.c:271-345 | refuses exactly the parameters over the limit; otherwise sends and receives bunches_num bunches, each starting from empty connections, and ends for a send or for a receive exactly when such a call gave a bad result |
| MsgMore.BlockedIsFull | zetaferno-ts/tcp/msg_more.c:319-350 | when every buffer is at its bound the largest total is reached, so "no space" cannot happen |
| MsgMore.Pass | zetaferno-ts/tcp/msg_more.c:321-345 | a pass keeps the bounds, cur_size is the sum and does not go past the total, and no space means that all are at their bounds |
| MsgMore.Fill | zetaferno-ts/tcp/msg_more.c:319-353 | with fair draws it ends with exactly the total, and never in "no space" or "too big" |
| MsgMore.Build | zetaferno-ts/tcp/msg_more.c:259-354 | builds exactly when size_min <= size_max; the sum is the drawn total, every buffer within its bounds; the upper bounds of the ends hold exactly when the MSS is at least 2 or no end has to be smaller than it |
| MsgMore.TinyMss | zetaferno-ts/tcp/msg_more.c:264-292 | an allowed parameter set and MSS for which the first buffer must break its bound |
| MsgMore.RangeEmptyWhen | zetaferno-ts/tcp/msg_more.c:281-295 | which parameters make the construction give up at once |
| MsgMore.SizeRange | zetaferno-ts/tcp/msg_more.c:264-292 | the range the total is drawn from, for every parameter set |
| MsgMore.BuffersAre | zetaferno-ts/tcp/msg_more.c:269-286 | from an MSS of 2 on, a buffer that has to be smaller has at most half of it, and one that has to be larger three halves, rounded down, which is more than it |
| Iovecs.PartitionGathers | zetaferno-ts/lib/zetaferno_ts.c:504-511 | the vectors of a split hold the bytes of the buffer, in order and without gap |
| Iovecs.Compare | zetaferno-ts/lib/zfts_tcp.c:247-270 | passes exactly when the data is what the vectors hold together |
| Iovecs.SplitComparesEqual | zetaferno-ts/lib/zfts_tcp.c:247-270 | a split of a buffer compares equal to data exactly when the data is that buffer |
| Iovecs.SplitInIovs | zetaferno-ts/lib/zetaferno_ts.c:471-516 | for every random choice a partition of the buffer, lengths within bounds except a shorter last one, and the number of vectors bounded both ways |
| Iovecs.CutBuffer | zetaferno-ts/lib/zfts_zfut.c:27-43 | for every random choice a partition of the buffer, with NULL exactly for empty vectors |
| Iovecs.FlooderSplit | talib_zetaferno_ts/rpc_udp_tx.c:265-283 | a partition into equal vectors, the last with less than iovcnt bytes more; refused exactly when a vector would be empty |
| Iovecs.SendSplit | zetaferno-ts/lib/zfts_tcp.c:974-999 | a partition into chunks of at most ZFTS_TCP_DATA_MAX bytes, one empty chunk for no data |
| Iovecs.RecvSplit | zetaferno-ts/lib/zfts_tcp.c:762-843 | the same chunks, though this loop stops on its own condition |
| UdpFlooder.Flood | talib_zetaferno_ts/rpc_udp_tx.c:228-341 | stats is the bytes of the accepted datagrams and errors the number refused, also after a failure; success exactly when every call succeeded; it ends at the first reading of the clock past the duration; the counters then account for every turn: turns are errors plus stats / dgram_size |
| ZftReceive.RecvFunc | zetaferno-ts/lib/zfts_tcp.c:754-857 | both ways of receiving are one stream operation: the library is asked for just what fits the buffer, the result bytes move from the front of the stream to the buffer, of the bytes offered as many as fit, and an error moves nothing |
| ZftReceive.ReceivesAll | zetaferno-ts/lib/zfts_tcp.c:754-857 | with a library that hands over what is there and fits, both return the smaller of len and what is there |
| ZftReceive.NothingLostOrRepeated | zetaferno-ts/lib/zfts_tcp.c:754-857 | over any mix of calls the outputs and the rest make up the original stream |
| ZftReceive.Zocket.DoneSome | zetaferno-ts/lib/rpc_zf_tcp.h:362-378 | what is not acknowledged is lent again |
| ZftReceive.ReadAllZc | talib_zetaferno_ts/rpc_tcp.c:975-1047 | one buffer is asked for at a time; the copy and the rest make up the stream; 0 only when nothing came or the peer has finished, -1 only when completing a message failed |
| ZftOverfill.Round | talib_zetaferno_ts/rpc_tcp.c:1097-1132 | full buffers are sent and the accepted prefixes recorded in order, until EAGAIN or a failure |
| ZftOverfill.OverfillBuffers | talib_zetaferno_ts/rpc_tcp.c:1065-1155 | the recorded buffer is what was accepted, also on failure; it terminates, fails exactly when a call did, and succeeds exactly after the first round that accepted nothing |
| ConnDrain.ReadRound | zetaferno-ts/lib/zfts_tcp.c:591-603 | one read on each connection with bytes left, for exactly these; never past what was sent |
| ConnDrain.Drain | zetaferno-ts/lib/zfts_tcp.c:590-617 | its reads are those of a sequence of rounds, each beginning with what the one before left; it ends at the first two rounds in a row that brought nothing |
| ConnDrain.RoundsBounded | zetaferno-ts/lib/zfts_tcp.c:605-617 | at most two rounds for each byte received, and two more |
| ConnDrain.QuietEnd | zetaferno-ts/lib/zfts_tcp.c:605-614 | the end in terms of rounds: the last two brought nothing, and of no two in a row before did neither |
| ConnDrain.BroughtTotal | zetaferno-ts/lib/zfts_tcp.c:590-617 | the rounds together brought what was sent and is not left |
| ConnDrain.DrainAndCheck | zetaferno-ts/lib/zfts_tcp.c:574-633 | passes exactly when every connection brought what was sent; otherwise the verdict is that of the first that did not: "less" for fewer bytes, "differs" for as many but others, and never "more" |
| ConnDrain.Mismatch | zetaferno-ts/lib/zetaferno_ts.h:115-135 | "differs" means that the data that came in does not begin with what was sent |
| LengthExpr.AtoiOfDigits | zetaferno-ts/bnbvalue/bad_address.c:111-114 | reading a printed number gives the number |
| LengthExpr.NumberThenLetters | zetaferno-ts/bnbvalue/bad_address.c:111-114 | a token that begins with a number is worth that number |
| LengthExpr.OtherSeparators | zetaferno-ts/bnbvalue/bad_address.c:103-121 | a separator other than plus and minus ends a token and leaves the sign as it is |
| LengthExpr.LongNamesAreCut | zetaferno-ts/bnbvalue/bad_address.c:106-110 | the name looked up is the first 255 characters of "struct " and the token |
| LengthExpr.ParseLength | zetaferno-ts/bnbvalue/bad_address.c:81-127 | without spaces, the value is the signed sum of the tokens between separators; fails exactly when a token is too long |
| LengthExpr.SumReadBack | zetaferno-ts/bnbvalue/bad_address.c:81-127 | a printed signed sum of numbers and identifiers, spaces anywhere, is read as the sum of its terms as the scanner takes them, for every assignment of sizes; it fails exactly when a term is longer than the buffer |
| LengthExpr.SumRoundTrip | zetaferno-ts/bnbvalue/bad_address.c:81-127 | it is read as its value for every assignment of sizes if and only if every name that begins with an underscore, or does not fit with "struct " in front, cancels out in it |
| LengthExpr.LostNamesCancel | zetaferno-ts/bnbvalue/bad_address.c:105-114 | terms in which all such names cancel out are read as their value |
| LengthExpr.LostNameCounts | zetaferno-ts/bnbvalue/bad_address.c:105-114 | otherwise some assignment of sizes tells the two values apart |
| LengthExpr.NameRoundTrip | zetaferno-ts/bnbvalue/bad_address.c:81-127 | a single name is read as the size of its structure for every assignment if and only if it begins with a letter and fits with "struct " in front |

## Left out

- StackTable.ContextTable.Add: nothing is claimed of the table after a failure, since both callers then abort() (the counter is already bumped and the slot may be half filled).
- StackAgent.NoUseAfterFree: states after abort() are terminal; the moment between a failing step and the abort() is one step. The library is assumed to return stacks that are not live; a double free ends in abort() because the lookup fails.
- StackAgent.JoinedBeforeFree: every thread has an id of its own, also after it was joined; that the C library may use an id again for a later thread is not modelled.
- ThreadSpawner.SpawnerSafety: a thread that could not be joined may still be active, see SafeIffAllJoined; termination of the threads is not claimed, since the source does not promise it.
- EventChecker.CheckEvents: the muxer is assumed to report nonempty masks and never more events than the slots it was given. Time is a natural number that each wait reports.
- MuxerSpec.CreateMzockets: components are shorter than the 100-byte buffer of the source; longer ones overflow it.
- MuxerSpec.PrepareEvents: specifications are shorter than the 1000-byte buffer of the source.
- MuxerSpec.ParseEvents: event strings are shorter than the 1000-byte buffer of the source.
- MsgMore.Fill: the draws of 0 and 1 are an arbitrary infinite sequence in which a 1 always comes again; without that the source's loop need not end.
- BunchBudget.Bunches.Choose: the draws are arbitrary, so that it finds a connection is not claimed, only that there is one.
- Overfill.Overfiller.Run: room on the way to the peer is finite, and a send that succeeds takes at least one byte. ENOMEM verdicts, the longer processing of events after a failure and the checks of zft_send_space() around the loop are not modelled.
- ZftOverfill.OverfillBuffers: room is finite and a send that succeeds takes at least one byte, as above.
- ZftReceive.RecvFunc: the handler for results of completing a message, and the failure of the call that completes it, are not modelled; message headers other than the buffers neither.
- LengthExpr.ParseLength: a token of exactly 256 characters, which leaves no room for its terminator, is excluded; numbers are unbounded where atoi() is a C int.
- UdpFlooder.Flood: the clock moves on between two readings; resolving the library functions is not modelled.
- Iovecs.SplitInIovs: 1 <= min_iov_len <= max_iov_len, without which the source divides by zero or does not advance.
- C integer overflow, allocation failures other than realloc() of the context table and calloc() of the thread ids, and mutex failures.
- zft_read_all(), which goes on after a result of 0, zf_process_events_long() and iomux internals: no termination to claim.
- zfts_tcp_conns_read_check_data_iut() and zfts_zft_recv_func_dbuf(): variants of what is modelled.
- RPC marshalling, creation and destruction of zockets, flag and enum converters, test scenarios, verdict texts and logging.
- Invoking and processing events of zockets other than listening ones: single sends and receives without state of their own.
- The ZF library itself, stacks, muxers and alternatives: only the contracts named above.
