# A verified model of the embedded-software course programs

This project states and proves, in Dafny, what the hardest parts of this repository promise:

- the stop-and-wait file transfer of the two UDP programs (`Transfer.dfy`);
- the two-semaphore, two-queue logger of the RTOS program (`Logger.dfy`), and what its log lines
  carry (`LogRecords.dfy`);
- eight parts of the kernel file `sys.c`: process groups and sessions (`Sessions.dfy`), user and
  group ids (`Credentials.dfy`), resource limits (`Rlimits.dfy`), the `PR_SET_MM` layout
  (`MmLayout.dfy`), subreaper propagation (`Subreaper.dfy`), the rescaling in `sysinfo`
  (`Sysinfo.dfy`), `setpriority` and `getpriority` (`Priority.dfy`) and the added `sortfunc`
  call (`Sortfunc.dfy`);
- the animal sorting, counting and filtering module (`Animals.dfy`).

`dafny verify dfyconfig.toml` checks all of it.

## How the model is built

Code that updates records, tables and buffers in place is a class whose methods do the same
updates. Each method is proved against a function of the old state, and those functions are what
runs are made of: a run is a sequence of events, and the main results hold in every state that
any run can reach. What each call changes is also stated without those functions, by its guards
and its effect, and over runs by the last event that decides. Protocols and task sets are state
machines whose events may interleave in any order.

What the code asks of parts of the kernel that are not in this repository becomes a parameter of
the event, free to differ from call to call: capability tests, security hooks, allocation, pid
lookup, `find_vma`, `can_nice`. So do the clock ticks, the temperature samples and the choice of
datagram that the network delivers. The one exception is `check_data_rlimit`: its answer is computed
from the layout it is asked about, heap plus data against a limit.

Numbers are unbounded unless a width matters. Packet indices, clock ticks and toggle counts are
`nat`, where the programs use `int`. Word sizes are explicit in `Rlimits.dfy` (32 and 64 bits) and
in `Sysinfo.dfy` (an unsigned long has `ulong` values and wraps around).

Where code and comments disagree, the code is followed:

- `servernetsysforsocket` opens with a comment that is never closed before the struct and `encode`;
  those lines are read as code, and they equal the ones in the client.
- The comment at `sys.c:2470` speaks of a 32-bit unsigned long; the code tests the machine's own
  unsigned long, and so does the model.
- The comment at `sys.c:2209` says all descendants of a marked task are marked; that holds only
  for those not behind a child reaper, which is the form proved.

Some properties one would hope for are false of the code. Each is kept as it is, shown to fail,
and given its exact condition:

- A UDP sender that leaves its loop need not have delivered the file, because the exit test looks
  only at the chunk length: `LeavingGuaranteesDelivery`.
- The soft CPU limit can exceed the hard one: `InversionArisesExactly`, `InversionOverRuns`,
  `ReadBackWritesBack`.
- Rescaling keeps byte amounts only for power-of-two units: `BytesKeptExactly`, `OddUnitLosesBytes`.
- A 32-bit `sysinfo` report is cut off from 2^32 pages on: `ReportFitsExactly`, `ReportCanOverflow`.
- `setpriority` can return 0 although a task refused, if a security hook answers `-ESRCH`:
  `ZeroExactly`, with a witness in `HookCanHideRefusal`.
- Log times need not be in order, because the temperature task reads the clock before it waits:
  `TimesInOrderExactly`, `TempTimeCanStepBack`.
- Single-field `PR_SET_MM` calls need not lead from one allowed layout to another, because each
  must respect the data limit: `FieldCallsReachExactly`.

## Model

| member | source | states |
|---|---|---|
| Transfer.EncodeInPlace | clientnetsysforsocket.c:30-36 | the in-place loop XORs each of the first `length` bytes with the key and leaves the others |
| Transfer.EncodeUndoesItself | servernetsysforsocket:35-41 | encoding twice is the identity on the whole buffer, stale tail included |
| Transfer.SendingEnd.constructor | clientnetsysforsocket.c:155-164 | the sender starts at offset 0 with index 1 and a zeroed buffer |
| Transfer.SendingEnd.SendChunk | servernetsysforsocket:139-145 | whatever the buffer held, the packet carries chunk `index` of the file under that index; with or without clearing the buffer afterwards |
| Transfer.SendingEnd.Timeout | clientnetsysforsocket.c:191-196 | after a timeout the offset is 1024(index-1), so the same chunk is sent again, and the loop is never left |
| Transfer.SendingEnd.Acknowledge | clientnetsysforsocket.c:197-211 | the index advances iff the acknowledgement matches; the loop is left iff the last chunk was out, matching or not; otherwise the next read yields chunk `index` |
| Transfer.ReceivingEnd.constructor | servernetsysforsocket:174-190 | the receiver appends to what the file already held and expects chunk 1 |
| Transfer.ReceivingEnd.Receive | servernetsysforsocket:194-216 | every index seen is acknowledged and a short packet ends the loop; only the expected chunk is appended, each byte XORed with 10 |
| Transfer.NothingLostOrDuplicated | clientnetsysforsocket.c:181-212 | over a channel that loses, duplicates and reorders, the receiver's file is always its old content plus the first expected-1 chunks, index <= expected <= index+1, and the offset at each loop head is 1024(index-1) |
| Transfer.WireBytesExactly | clientnetsysforsocket.c:184-187 | every byte of every packet of every run: packet i carries chunk i, each byte XORed with 10 and so never in clear, followed by zeros (server, or first chunk) or by the end of packet i-1 (client, which does not clear its buffer) |
| Transfer.AcksNameWrittenChunks | servernetsysforsocket:198-212 | an index has been acknowledged if and only if its chunk has been written |
| Transfer.ReceiverLeavesWithWholeFile | servernetsysforsocket:192-217 | the receiver has left its loop exactly when all chunks are in, and then it holds the whole file |
| Transfer.MatchingExitDelivers | clientnetsysforsocket.c:200-211 | a sender leaving on a matching acknowledgement has delivered the whole file |
| Transfer.ReceiverCanFinish | clientnetsysforsocket.c:184-187 | a sender that has left has its last packet in the channel, so the receiver alone can finish |
| Transfer.AlwaysCompletable | servernetsysforsocket:136-168 | from every reachable state, even after an early exit of the sender, some continuation has both sides out of their loops and the whole file delivered |
| Transfer.StaleAckEndsSender | clientnetsysforsocket.c:203-211 | every file of two or more chunks has a run in which a stale acknowledgement ends the sender before the last chunk arrives |
| Transfer.LeavingGuaranteesDelivery | servernetsysforsocket:155-167 | leaving always implies that the receiver has finished iff the file is shorter than 1024 bytes, and that it has all the bytes iff the file is shorter than 1024 bytes or its length is a multiple of 1024 |
| Logger.Board.constructor | Assigment_5/main.c:262-273 | the set-up gives the write semaphore the only token and empty queues, and satisfies the invariant |
| Logger.Board.LedAction | Assigment_5/main.c:160-177 | keeps the invariant; a stamp takes the clock; what is sent is accepted, numbered one more than the LED records before, and no earlier than anything sent before |
| Logger.Board.TempAction | Assigment_5/main.c:180-225 | keeps the invariant; the sample and the stamp are stored where they are taken; what is sent is accepted and no earlier than any temperature sent before |
| Logger.Board.LogAction | Assigment_5/main.c:227-249 | keeps the invariant; a receive never meets an empty queue, and a write shows the oldest record sent and not yet shown |
| Logger.OneTaskInside | Assigment_5/main.c:267-273 | in every reachable state exactly one token is held by a semaphore or by the one task inside its section |
| Logger.QueuesMatchTag | Assigment_5/main.c:234-244 | no send is refused, no receive finds its queue empty, at most one record is queued, and `n` names its queue whenever the logger may look |
| Logger.LogFollowsProduction | Assigment_5/main.c:160-249 | the UART shows every accepted record once and in order, with LED counts 1, 2, 3, ..., no LED time earlier than a time before it, and no temperature time earlier than a temperature time before it |
| LogRecords.LogIsTheLedger | Assigment_5/main.c:160-249 | over every run the records sent are a ledger read off the events alone, and the UART shows one of them, in order, for every seven actions of the logger |
| LogRecords.RecordsCarrySamples | Assigment_5/main.c:171-173 | the k-th LED record has number k+1 and the clock of the stamp of its round; the k-th temperature record has the sample and the clock of the stamp of its round |
| LogRecords.LedgerByKind | Assigment_5/main.c:218-222 | the same of the ledger itself, with the number of records of each kind |
| Logger.CanWriteLine | Assigment_5/main.c:231-247 | from every state satisfying the invariant some run writes exactly one more line, of the kind asked for if none of the other kind is under way |
| Logger.EachProducerHeard | Assigment_5/main.c:165-247 | no reachable state deadlocks or shuts a producer out: a further LED line, and a further temperature line, can always be shown |
| Logger.TimesInOrderExactly | Assigment_5/main.c:170-173 | over every run from the set-up, the times of the records sent never decrease iff no LED record is stamped at a later tick than a waiting temperature record that is sent afterwards |
| Logger.OrderOverRun | Assigment_5/main.c:219-222 | the same from any state satisfying the invariant, with a temperature record already late |
| Logger.LateRecordBreaksOrder | Assigment_5/main.c:219-223 | from every reachable state with a late temperature record some run shows times out of order |
| Logger.TempTimeCanStepBack | Assigment_5/main.c:219-223 | a concrete run from the set-up leads to a late temperature record, hence to a log out of order |
| Sessions.Tasks.Setpgid | sys.c:990-1059 | a success moves the target, under the two zero conventions, to the named group and changes nothing else; a refusal changes nothing |
| Sessions.Tasks.Setsid | sys.c:1126-1168 | the same for setsid and set_special_pids |
| Sessions.SessionsStayConsistent | sys.c:990-1168 | in every run of setpgid, setsid, fork, exec and exit a group lies in one session, a group named by a live process in that process's session, leaders lead their own session and group, and a session named by a live process is led by it |
| Sessions.SetpgidAcceptsExactly | sys.c:1010-1048 | setpgid is accepted iff the target is the caller or its un-execed child in the same session, leads no session, the group is its own or an existing one of the session, and the hook agrees; which member is inspected does not matter |
| Sessions.SetpgidRefusesWith | sys.c:1000-1044 | which refusal gets EINVAL, ESRCH, EACCES and EPERM, each as an iff |
| Sessions.SetpgidMoves | sys.c:1046-1053 | an accepted call puts exactly the target into the group, which then exists; a refused one leaves the table |
| Sessions.LastMoveDecides | sys.c:990-1168 | over any run a process is in the group of the last accepted setpgid on it or its own setsid, else the one it was forked with; in the session of its own setsid, else the one it was forked with; and it is un-execed until its first exec |
| Sessions.OthersCannotMoveIt | sys.c:1019-1030 | over any run, a process that has called exec keeps its group and session unless it calls setpgid or setsid itself or exits |
| Sessions.OnlySetsidChangesSession | sys.c:1126-1135 | over any run, a process keeps its session unless it calls setsid itself or exits, whatever setpgid calls are made on it |
| Sessions.SetsidFailsExactly | sys.c:1144-1153 | setsid fails iff the group named by the caller's pid exists |
| Sessions.SetsidStartsEmptySession | sys.c:1155-1160 | a success leaves the caller alone in a new session and a new group |
| Sessions.SetsidSucceedsOnce | sys.c:1145-1147 | after a success every further setsid of that process fails until it exits |
| Credentials.Task.Setreuid | sys.c:471-529 | the staged edits of a copied credential amount to one transformation with all error cases |
| Credentials.Task.Setuid | sys.c:542-582 | the same for setuid |
| Credentials.Task.Setresuid | sys.c:589-652 | the same for setresuid |
| Credentials.Task.Setfsuid | sys.c:755-789 | the same for setfsuid, which always returns the previous fsuid |
| Credentials.NoNewIds | sys.c:492-508 | without CAP_SETUID no run brings an id into {uid, euid, suid}, nor into the four with fsuid, that was not there at the start |
| Credentials.CommitsExactly | sys.c:471-652 | setreuid, setuid and setresuid commit iff ids translate, memory is there, the ids are permitted, a new user struct is found and the hook agrees, and the first that fails gives the code |
| Credentials.IdsAfter | sys.c:471-652 | what each of the four ids and the user struct are after a committed call |
| Credentials.SetfsuidExactly | sys.c:755-789 | the filesystem id, and only it, changes iff the id is another, permitted one and nothing fails |
| Credentials.RegainExactly | sys.c:531-541 | after setuid to the real id the saved id can be taken back iff the capability was not held then, or the two ids are equal |
| Credentials.WithinReachExactly | sys.c:616-641 | a triple of ids can be reached without the capability iff each is one of the three initial ids |
| Credentials.DropIsPermanent | sys.c:559-571 | after setreuid(u, u) or a privileged setuid(u) no unprivileged run changes any of the four ids or the user struct |
| Credentials.SetresuidSubsumes | sys.c:585-588 | every successful setreuid or setuid equals a permitted setresuid call |
| Credentials.SetresuidDoesMore | sys.c:637-641 | some permitted setresuid call equals no setreuid or setuid call |
| Credentials.SwapTwiceRestores | sys.c:456-465 | swapping real and effective id by setreuid twice restores both without any capability |
| Credentials.GroupStepSimulates | sys.c:794-827 | each group call gives the result and ids of the user call whose set_user and hook succeed |
| Credentials.GroupCallsSimulate | sys.c:338-425 | over whole runs the group calls follow the user calls step for step when set_user and the hook succeed |
| Credentials.CredentialsStaySettled | sys.c:430-454 | in every run the user struct is the one for the uid, and fsuid differs from euid only if the last committed call was setfsuid |
| Credentials.FailureLeavesCredentials | sys.c:526-528 | a call that does not commit leaves the credentials untouched, and its result is negative exactly then (except setfsuid) |
| Rlimits.NarrowSaturates | sys.c:1490-1500 | rlim64_to_rlim saturates at the word's infinity, so it is monotone and its cast drops no bit |
| Rlimits.NarrowUndoesWiden | sys.c:1478-1488 | rlim64_to_rlim is a left inverse of rlim_to_rlim64, for both word sizes |
| Rlimits.Signal.Prlimit | sys.c:1503-1567 | a success reports the old limit and stores the request, a zero CPU limit as one second, and no other limit changes; a refusal changes nothing |
| Rlimits.Signal.Prlimit64 | sys.c:1592-1637 | prlimit64 is the lookup, the permission check and do_prlimit between the two conversions |
| Rlimits.StoredIsReadBack | sys.c:1546-1551 | a request that meets the guards is stored, reports the old limit, and is what a later read gives; other limits stay |
| Rlimits.RefusedWith | sys.c:1509-1535 | which calls get EINVAL, EPERM, ESRCH or the hook's code; they change and report nothing |
| Rlimits.StoredIsReadBack64 | sys.c:1592-1637 | through prlimit64 the request comes back with what an unsigned long cannot hold turned into infinity; without process or permission nothing happens |
| Rlimits.LastRequestDecides | sys.c:1503-1567 | after any run each limit is the last request stored for it, else the initial one |
| Rlimits.SoftStaysBelowHard | sys.c:1511-1517 | every run keeps soft <= hard for every resource, except RLIMIT_CPU = {1, 0} |
| Rlimits.InversionArisesExactly | sys.c:1536-1544 | a call leaves the CPU soft limit above the hard one iff its guards let it store a request for {0, 0}, or it stores no CPU limit and found it so |
| Rlimits.InversionOverRuns | sys.c:1503-1567 | after any run some soft limit is above its hard limit iff the last stored CPU request was {0, 0}, or there was none and the CPU limit was so at the start |
| Rlimits.InversionIsReachable | sys.c:1546-1551 | from any ordered table it is one unprivileged call away |
| Rlimits.HardLimitsNeverRise | sys.c:1529-1533 | without CAP_SYS_RESOURCE no run raises a hard limit |
| Rlimits.LimitsStaySane | sys.c:1514-1516 | even with the capability no run lifts the file limit above sysctl_nr_open or brings the CPU soft limit back to zero |
| Rlimits.ReadBackWritesBack | sys.c:1602-1637 | reading a limit through prlimit64 and writing it back changes nothing in any reachable state, and succeeds iff the limit is not the inverted CPU pair |
| MmLayout.Validate | sys.c:1863-1948 | the check loop and comparisons accept exactly the layouts in bounds, in order and within the data limit that also meet the auxv rule and the admin rule |
| MmLayout.Mm.SetMap | sys.c:1951-2032 | PR_SET_MM_MAP replaces the whole layout or leaves it |
| MmLayout.Mm.SetField | sys.c:2083-2192 | a single-field call replaces that field or leaves the layout |
| MmLayout.MapCallStores | sys.c:1951-2032 | PR_SET_MM_MAP stores the given layout iff every listed check passes, with auxv and executable or without, and else nothing; and which failure gets which code |
| MmLayout.FieldCallStores | sys.c:2083-2192 | a single-field call changes that field only; EPERM, EINVAL and EFAULT in terms of capability, layout and mapping |
| MmLayout.LastWriteDecides | sys.c:2153-2188 | after any run each field holds what the last successful call gave it, else its initial value |
| MmLayout.OneSuccessSettlesLayout | sys.c:2153-2188 | after any run with a success, from any layout, all fields are in bounds, start_code < end_code, start_data < end_data < start_brk <= brk, the arg and env ranges are ordered, and heap plus data are within the limit |
| MmLayout.FieldCallIsMapCall | sys.c:2097-2174 | a single-field call succeeds iff PR_SET_MM_MAP with that field replaced would, given the capability and for stack fields a mapping, and then does the same |
| MmLayout.FieldCallsReachExactly | sys.c:1919-1925 | with the capability held and mappings present, single-field calls lead from every allowed layout to every other iff the data limit is not exactly one byte, or there are at most three addresses and so no two places for data and heap |
| MmLayout.ReachData | sys.c:2115-2153 | without a limit or with one of two bytes or more, data and heap can be moved anywhere by single-field calls that never exceed the limit |
| MmLayout.OneByteFreezes | sys.c:1922-1925 | under a limit of one byte no run of single-field calls moves data or heap |
| Subreaper.Tree.Propagate | sys.c:2206-2222 | the visitor marks and descends exactly at tasks neither marked nor child reapers |
| Subreaper.Tree.Walk | sys.c:2378 | the walk over children and siblings with that visitor gives the pruned marking |
| Subreaper.Tree.SetChildSubreaper | sys.c:2373-2379 | the caller is a subreaper afterwards iff it asked to be, nobody else's subreaper flag changes, no mark is lost, and marks are added only when switching on |
| Subreaper.PruningIsExact | sys.c:2208-2218 | where the flag is inherited, skipping marked subtrees marks exactly what a walk cut only at child reapers would |
| Subreaper.MarkingInherits | sys.c:2220-2221 | after the marking the flag is inherited again, now from the caller |
| Subreaper.UnprunedMeans | sys.c:2213-2217 | the walk cut only at child reapers reaches exactly the ends of chains of children without a child reaper |
| Subreaper.ExitKeepsInv | sys.c:2209-2211 | the children of an exiting task that go to an ancestor without a child reaper in between keep the flag inherited |
| Subreaper.StepKeepsInv | sys.c:2209-2211 | prctl on or off, fork, and exit with the children going to an ancestor keep the flag inherited in the whole tree |
| Subreaper.PrunedWalkIsExactInEveryRun | sys.c:2206-2222 | in every run of prctl, fork and exit each walk marks a task iff a chain of children without a child reaper leads from the caller to it |
| Subreaper.SubreaperCoversItsTree | sys.c:2373-2379 | from then on, until the caller exits or switches it off, every task linked to it by a chain of children without a child reaper has the flag, later forks included |
| Subreaper.LastEventDecidesFlags | sys.c:2206-2222 | over any run a task is a subreaper iff its last own prctl said so, and has the flag iff the last event that marked it, or its exit, said so |
| Subreaper.FamilyAfter | sys.c:2209-2215 | whose children the tasks are after each fork and exit between the calls |
| Sysinfo.TotalWithoutWrap | sys.c:2479-2491 | the wrap tests pass iff (totalram + totalswap) * 2^bitcount fits an unsigned long |
| Sysinfo.Rescale | sys.c:2479-2512 | do_sysinfo rescales iff the true total fits: then every figure is multiplied, modulo the word, and the unit is 1; else nothing changes |
| Sysinfo.HalvingsIsLog | sys.c:2482-2491 | the bit count is the binary logarithm of the unit, rounded down |
| Sysinfo.NoShiftWraps | sys.c:2500-2508 | when it rescales, no shift of a figure bounded by totalram + totalswap wraps |
| Sysinfo.BytesKeptExactly | sys.c:2493-2508 | the bytes every figure stands for are kept iff the unit is a power of two or both totals are zero |
| Sysinfo.OddUnitLosesBytes | sys.c:2484-2501 | at a unit of 3 bytes one unit is reported as 2 bytes |
| Sysinfo.ScaleDown | sys.c:2550-2569 | the compat loop ends and shifts by the number of doublings up to the page size |
| Sysinfo.ScaledDownExactly | sys.c:2548-2569 | for every unit, small figures stay; large ones are divided by the least power of two that takes the unit to the page size |
| Sysinfo.ScaledDownRounds | sys.c:2556-2568 | from a power-of-two unit the loop stops exactly at the page size and each figure loses less than one page |
| Sysinfo.PageCountsComeBack | sys.c:2548-2569 | page counts come back exactly through both calls, whether or not do_sysinfo rescaled |
| Sysinfo.SmallUnitsRound | sys.c:2544-2569 | for any power-of-two unit up to the page size the end-to-end loss is less than one reported unit |
| Sysinfo.ReportFitsExactly | sys.c:2527-2542 | for figures below one of the totals, the 32-bit fields cut nothing off iff both totals are below 2^32 pages |
| Sysinfo.ReportCanOverflow | sys.c:2576-2581 | at 2^32 pages of 4096 bytes the call has 2^32 to store in a 32-bit field |
| Priority.Scheduler.SetOnePrio | sys.c:160-182 | EPERM, EACCES or the hook's code for each refusal; one step of the fold: the refusal replaces the code, a success clears only -ESRCH |
| Priority.Scheduler.SetPriority | sys.c:184-246 | exactly the selected tasks that accept take the clamped value, and the result is the folded code |
| Priority.Scheduler.GetPriority | sys.c:254-317 | the result is the largest 20 - nice over the selection, -ESRCH if it is empty |
| Priority.ClampIsNearest | sys.c:195-200 | the clamped value is the one of -20 to 19 nearest to the request |
| Priority.OneCall | sys.c:160-182 | each task changes exactly as its own permission, nice value and hook say, whatever else is selected |
| Priority.NiceOnlyRises | sys.c:168-171 | over any sequence of calls a task that may not be raised never gets a lower value, and values stay in range |
| Priority.WithinReachExactly | sys.c:184-246 | such a task can be brought to exactly the values from its present one up to 19 |
| Priority.FoldedMeans | sys.c:177-181 | the result is -ESRCH for no task, 0 if all accept, else the last refusal, unless that is -ESRCH and a success follows |
| Priority.ZeroExactly | sys.c:177-179 | 0 is returned iff there was a task and the last refusal, if any, was -ESRCH with a success after it |
| Priority.ZeroMeansAllAccepted | sys.c:205-245 | without a hook answering -ESRCH, 0 is returned iff there was a task and all accepted, and any other code is the last refusal |
| Priority.SetThenGet | sys.c:248-253 | after a 0 from setpriority, getpriority on the same selection returns 20 minus the clamped nice value |
| Priority.HookCanHideRefusal | sys.c:172-178 | two tasks, the first refused by the hook with -ESRCH: the call returns 0 and the first keeps its value |
| Sortfunc.Pass | sys.c:864-872 | one pass carries the smallest open entry to the end of the open part |
| Sortfunc.BubbleSort | sys.c:862-873 | for any element count the prefix becomes a descending permutation of itself and the rest is untouched |
| Sortfunc.Sort | sys.c:844-877 | the call refuses sizes below 256 and otherwise stores the first 256 entries largest first and the rest unchanged, even onto its own input |
| Sortfunc.DescendingIsUnique | sys.c:862-873 | the stored result is determined: there is one descending permutation |
| Animals.StrcmpZero | ASSIGNMENT3/Q4/sortanimal.c:62 | strcmp is zero exactly on equal names |
| Animals.StrcmpFlips | ASSIGNMENT3/Q4/sortanimal.c:46 | strcmp is antisymmetric |
| Animals.StrcmpTransitive | ASSIGNMENT3/Q4/sortanimal.c:46-51 | strcmp orders names transitively |
| Animals.StrcmpIsDictionaryOrder | ASSIGNMENT3/Q4/sortanimal.c:46 | strcmp is negative iff at the first difference the first name has ended or has the smaller character |
| Animals.AnimalModule.SelectInto | ASSIGNMENT3/Q4/sortanimal.c:44-52 | the inner loop puts a smallest remaining name in place j |
| Animals.AnimalModule.SortAnimals | ASSIGNMENT3/Q4/sortanimal.c:42-53 | the array becomes an ascending permutation of itself |
| Animals.AnimalModule.Find | ASSIGNMENT3/Q4/sortanimal.c:60-68 | the search finds a node of that name or there is none |
| Animals.AnimalModule.CountAnimals | ASSIGNMENT3/Q4/sortanimal.c:57-77 | the list holds each distinct name once, strictly ascending, with its true count; the counts sum to the array length and the counter to the list length |
| Animals.AnimalModule.FilterAnimals | ASSIGNMENT3/Q4/sortanimal.c:79-101 | the second list is the in-order sublist that passes the filter, and its counter its length |
| Animals.AnimalModule.Create | ASSIGNMENT3/Q4/sortanimal.c:38-114 | all of this for the whole of linkedlist_create, on any array |
| Animals.FilteredExactly | ASSIGNMENT3/Q4/sortanimal.c:82-100 | a node is in the filtered list iff its name occurs in the original array exactly `count` times, more often than the filter asks, and the filter is "none" or names it; the list is strictly ascending |

## Left out

- Client and server command parsing, the Filefound/Fileerror handshake, ls, delete and exit: console
  and socket plumbing; the model starts with both sides in their transfer loops.
- What the peer does after the receiver has left and its last acknowledgement is lost: it is back in
  its command loop, outside the protocol.
- Overflow of the `int` packet index, of the 32-bit clock ticks and of the toggle count.
- Text formatting, UART, I2C, GPIO and the temperature decoding of the RTOS program: hardware access
  and a finite byte calculation. A log line is the record it shows.
- setregid, setgid, setresgid and setfsgid are modelled on values only, not as edits of a copied
  credential; they are tied to the user calls by GroupCallsSimulate.
- PF_NPROC_EXCEEDED in set_user, and translation of ids between user namespaces: arguments are
  already translated ids, or marked as untranslatable.
- Sysinfo.ScaleDown: requires a positive unit, because on a unit of zero the source's loop does not
  end, and a page size of at most 2^31, so that doubling a smaller unit stays within 32 bits.
- Priority.Scheduler.GetPriority: requires nice values between -20 and 19, which is what every
  setter in the kernel keeps.
- Animals.AnimalModule.Create: requires both counters to be zero, as they are when the module is
  loaded; they are not reset between calls.
- The compat and old forms of setrlimit and getrlimit, and the timer update after a CPU limit change.
- The saved auxiliary vector and the executable file of PR_SET_MM: only their checks are modelled;
  PR_SET_MM_MAP_SIZE, PR_SET_MM_AUXV and PR_SET_MM_EXE_FILE do not touch the layout.
- Who inherits the children of an exiting process is decided outside sys.c: any process in the
  session model, any ancestor without a child reaper in between in the subreaper model. The exit of
  a child reaper, which ends its whole namespace, is not modelled.
- A change of RLIMIT_DATA between PR_SET_MM calls: the limit is fixed for a run.
- Which tasks `which` and `who` select in setpriority and getpriority: the selection is a parameter.
- User-memory faults in sortfunc (the kernel code ignores them) and the allocation it leaks.
- linkedlist_exit and list memory: the linked lists are sequences.
- Timer modules, pipes, shared memory, message queues, TCP sockets, the thread demo, board files and
  the duplicate copies of sys.c and main.c: scripts or copies without further properties.
