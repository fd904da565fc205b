# ProjectBirth job scheduler and handle table, modelled in Dafny

This project models two parts of the ProjectBirth engine, the C++ game engine of the repository LiamMMurray/ProjectBirth:

**The lock-free job scheduler** (`Engine/JobScheduler.h`):
- **Jobs and counters.** A `Job` carries a parent pointer and a 32-bit `unfinishedJobs` counter. `Reset` sets them. `Finish` decrements the counter and, when it reaches zero, finishes the parent.
- **The work-stealing deque.** `JobQueue` is a power-of-two ring of job pointers with a `top` index, which thieves advance with a compare-and-swap, and a `bottom` index, which the owner pushes and pops at.
- **The scheduler runtime.** It keeps one deque per worker thread plus an "inactive" deque. `Launch` pushes onto the inactive deque. `PopOrStealJob` pops the caller's own deque and otherwise steals from a random victim.
- **`ParallelForJobImpl`.** It splits a range `[begin, end)` of `unsigned` indices in halves down to `chunkSize`. There is one leaf job per piece, each looping over its indices, under a root job with an empty body.
- **`TempJob`.** It is a root job to which other jobs are appended as children and launched.

**The handle table** `HandleManager<T>` (`ECS/HandleManager.h`). `GetHandle` returns the index of the first slot that is empty or that already holds the object, appending a slot when there is none. `GetObject` reads a slot back.

## Design

**Jobs.** Jobs live in an arena (`Jobs.JobPool`, one `seq<JobRecord>`). A job pointer is an index and a parent pointer is an optional index. `unfinishedJobs` is a `u32` whose increments and decrements wrap explicitly (`UInt32`). The recursion of `Finish` is proved to terminate on the number of counters equal to one. That measure works even when parent links form a cycle.

**Deques.** A deque is specified on values: `Deque`, `PushState`, `PopState` and `StealState`. The class `WorkStealingQueue.JobQueue`, with an `array` ring and the two indices, is proved to follow that specification. The outcome of each compare-and-swap is a boolean parameter, and a lost race stands for a concurrent thief. The `long` indices are unbounded integers.

**Scheduler inputs.** For `PopOrStealJob`, the calling thread's index (`GetThreadIndex`, a thread-local value), the value `rand()` returns and the outcomes of the compare-and-swaps are all parameters.

**Loop bodies.** The lambdas that jobs carry are not interpreted. A leaf job's run is the sequence of indices its loop hands to the body (`ParallelFor.InvokeLeaf`).

**Handle table.** An object pointer is an `Option<T>`, with `None` for `nullptr`. `Handle<T>` is declared in `ECS/Handle.h`, which is not part of this model. A handle here is the pair of index and generation that `GetHandle` passes to its constructor.

**Scheduler set-up.** `Engine/JobScheduler.cpp`, which defines `Initialize`, is not part of this model. The `Scheduler.Scheduler` constructor allocates `NumWorkerThreads + 1` empty deques of `MaxJobs` slots, as the declarations of `JobQueues`, `NumWorkerThreads` and `MaxJobs` and the indexing in `Launch` require.

**Empty ranges.** A parallel for over an empty range still creates one leaf job, whose loop runs no iteration: `end - begin <= chunkSize` holds for every `chunkSize`. `ParallelFor.SubRangesSplitRange` accordingly yields `[Range(begin, end)]` whenever the range fits in a chunk, the empty range included.

**Completion.** `Jobs.Balanced` is the invariant behind `Wait`: every job's counter is one for the job itself while it has not finished, plus one for each child whose counter is still above zero. `Finish`, allocation, `Reset` of a finished job and `Append(lambda)` keep it. Under it, a job whose counter is zero has no unfinished descendant (`Jobs.CompletedJobCompletesDescendants`).

## Model

| member | source | states |
|---|---|---|
| UInt32.Inc32 | ProjectCreation/ProjectCreation/Engine/JobScheduler.h:110 | `++` on the `unsigned` counter adds one, and the largest value wraps to 0 |
| UInt32.Dec32 | ProjectCreation/ProjectCreation/Engine/JobScheduler.h:115 | `--` on the counter subtracts one, and 0 wraps to 2^32 - 1; the result is 0 exactly when the counter was 1 |
| UInt32.Sub32 | ProjectCreation/ProjectCreation/Engine/JobScheduler.h:417 | `end - begin` in `unsigned` arithmetic: the plain difference when `begin <= end`, else it wraps; zero exactly when the two are equal |
| UInt32.Add32 | ProjectCreation/ProjectCreation/Engine/JobScheduler.h:422 | `(end - begin) / 2 + begin` in `unsigned` arithmetic: the plain sum below 2^32, else it wraps |
| Jobs.ResetState | ProjectCreation/ProjectCreation/Engine/JobScheduler.h:101-105 | `Reset()` clears the parent and sets the counter to 1; the task and every other job are unchanged, and parent links stay in range |
| Jobs.ResetWithParentState | ProjectCreation/ProjectCreation/Engine/JobScheduler.h:106-111 | `Reset(parent)` links the job to the parent with counter 1 and increments the parent's counter modulo 2^32; a job made its own parent ends at 2; nothing else changes |
| Jobs.FinishState | ProjectCreation/ProjectCreation/Engine/JobScheduler.h:112-121 | `Finish` terminates on every well-formed arena, cycles included, and never changes a parent link or a task |
| Jobs.FinishWithoutPropagation | ProjectCreation/ProjectCreation/Engine/JobScheduler.h:112-121 | finishing a job that does not reach 0, or reaches 0 with no parent, only decrements its own counter, wrapping 0 to 2^32 - 1 |
| Jobs.ChildCompletionDecrementsParent | ProjectCreation/ProjectCreation/Engine/JobScheduler.h:115-120 | a child that reaches 0 decrements its parent exactly once; when that does not complete the parent, no other job changes |
| Jobs.FinishPropagatesAlongChain | ProjectCreation/ProjectCreation/Engine/JobScheduler.h:112-121 | along a chain of distinct jobs, each the parent of the one before, where every job but the last has counter 1 and the last does not pass the completion on, `Finish` on the first brings every job but the last to 0, decrements the last once and changes no job off the chain |
| Jobs.AttachChildren | ProjectCreation/ProjectCreation/Engine/JobScheduler.h:442-443 | the loop `itr->Reset(root)` over the first n children, in order, keeps the arena's size; what it does to the counters, the links and the other jobs is stated by the three lemmas below |
| Jobs.AttachChildrenCountsChildren | ProjectCreation/ProjectCreation/Engine/JobScheduler.h:439-444 | attaching n children adds n to the parent's counter modulo 2^32 and keeps the parent's own parent |
| Jobs.AttachChildrenLinksChildren | ProjectCreation/ProjectCreation/Engine/JobScheduler.h:442-443 | every attached child points to the parent and has counter 1 |
| Jobs.AttachChildrenFrame | ProjectCreation/ProjectCreation/Engine/JobScheduler.h:442-443 | attaching children changes no job other than the parent and the children, no task, and keeps parent links in range |
| Jobs.ResetTree | ProjectCreation/ProjectCreation/Engine/JobScheduler.h:439-444 | after `ResetJobs` the root has no parent and counts itself plus its children; each child points to the root with counter 1; the other jobs and all tasks are unchanged |
| Jobs.FinishPendingStep | ProjectCreation/ProjectCreation/Engine/JobScheduler.h:112-121 | finishing one pending job of a reset tree takes it out of the pending set and keeps the root's counter equal to the number still pending |
| Jobs.FinishPendingAll | ProjectCreation/ProjectCreation/Engine/JobScheduler.h:112-121 | finishing every pending job once, in any order, leaves the tree with nothing pending |
| Jobs.ResetTreeIsPending | ProjectCreation/ProjectCreation/Engine/JobScheduler.h:439-444 | right after `ResetJobs` the root and every child are pending, while the number of children stays below 2^32 - 1 |
| Jobs.ResetTreeThenFinishAll | ProjectCreation/ProjectCreation/Engine/JobScheduler.h:318-330 | after `ResetJobs` on distinct children, finishing the root and each child once, in any order, brings the root's counter to 0, so `Wait(root)` can return, and every child's counter to 0 |
| Jobs.JobPool.Allocate | ProjectCreation/ProjectCreation/Engine/JobScheduler.h:247-272 | `CreateJobData` yields a new job holding the task at the end of the arena; its parent and counter start as no parent and 0, a choice of the model (see "Left out") |
| Jobs.JobPool.Reset | ProjectCreation/ProjectCreation/Engine/JobScheduler.h:101-105 | the arena becomes `ResetState` of the old one |
| Jobs.JobPool.ResetWithParent | ProjectCreation/ProjectCreation/Engine/JobScheduler.h:106-111 | the arena becomes `ResetWithParentState` of the old one, by the three assignments of the source in their order |
| Jobs.JobPool.Finish | ProjectCreation/ProjectCreation/Engine/JobScheduler.h:112-121 | the recursive method leaves the arena as `FinishState` of the old one |
| Jobs.FinishAll | ProjectCreation/ProjectCreation/Engine/JobScheduler.h:112-121 | finishing the jobs of a sequence one after the other keeps the arena's size, its well-formedness, every parent link and every task |
| Jobs.FinishRestoresBalance | ProjectCreation/ProjectCreation/Engine/JobScheduler.h:112-121 | when one job's counter is one more than balance asks, the rest of `Finish` on it restores balance: the surplus moves up the parent links until a counter stays above 0 or a job without a parent is reached |
| Jobs.FinishKeepsBalanced | ProjectCreation/ProjectCreation/Engine/JobScheduler.h:112-121 | in a balanced arena, finishing a job that has not finished yet keeps the arena balanced, with that job no longer unfinished |
| Jobs.FinishAllKeepsBalanced | ProjectCreation/ProjectCreation/Engine/JobScheduler.h:112-121 | finishing distinct unfinished jobs, in any order, keeps the arena balanced with exactly those jobs removed from the unfinished ones |
| Jobs.AllocateKeepsBalanced | ProjectCreation/ProjectCreation/Engine/JobScheduler.h:247-272 | appending a freshly allocated record with no parent and counter 0 keeps a balanced arena balanced |
| Jobs.ResetKeepsBalanced | ProjectCreation/ProjectCreation/Engine/JobScheduler.h:101-105 | `Reset()` of a job whose counter is 0 keeps the arena balanced, with that job now unfinished |
| Jobs.Ancestor | ProjectCreation/ProjectCreation/Engine/JobScheduler.h:117-120 | following the parent links that `Finish` follows n times from a job stays inside the arena; zero steps give the job itself |
| Jobs.AncestorSameParents | ProjectCreation/ProjectCreation/Engine/JobScheduler.h:112-121 | ancestors depend only on the parent links, so `Finish`, which keeps them, keeps every ancestor |
| Jobs.CompletedJobCompletesDescendants | ProjectCreation/ProjectCreation/Engine/JobScheduler.h:318-330 | in a balanced arena, when a job's counter is 0, so that `Wait` on it returns, every job whose parent links lead to it has counter 0 and has finished |
| WorkStealingQueue.MaskIsModulo | ProjectCreation/ProjectCreation/Engine/JobScheduler.h:131 | on a 32-bit index, `b & Mask` is `b % MaxJobs` and always a valid slot |
| WorkStealingQueue.WriteBelowBottom | ProjectCreation/ProjectCreation/Engine/JobScheduler.h:147-157 | writing slot `bottom & Mask` of a ring that is not full keeps every live job and adds the new one at the bottom |
| WorkStealingQueue.PushState | ProjectCreation/ProjectCreation/Engine/JobScheduler.h:147-157 | `Push` writes only slot `bottom & Mask` and advances `bottom`; when the ring is not full the live jobs become the old ones followed by the pushed job |
| WorkStealingQueue.PopState | ProjectCreation/ProjectCreation/Engine/JobScheduler.h:191-223 | `Pop` on an empty deque returns nothing and restores the deque; with two or more jobs it returns the newest without a CAS; the last job goes to whoever wins the CAS, and both indices end at `top + 1`; the newest job is gone in every non-empty case |
| WorkStealingQueue.StealState | ProjectCreation/ProjectCreation/Engine/JobScheduler.h:159-189 | `Steal` on a non-empty deque whose CAS wins returns the oldest job and drops it; an empty deque or a lost CAS returns nothing and changes nothing |
| WorkStealingQueue.PushThenPop | ProjectCreation/ProjectCreation/Engine/JobScheduler.h:147-223 | the owner popping right after a push onto a ring with room gets the pushed job back and the live jobs are as before, unless the deque was empty and a thief wins the race for the single job |
| WorkStealingQueue.PopConservesJobs | ProjectCreation/ProjectCreation/Engine/JobScheduler.h:191-223 | the job returned plus the jobs left are, as a multiset, within the jobs before, and equal to them when the CAS wins |
| WorkStealingQueue.StealConservesJobs | ProjectCreation/ProjectCreation/Engine/JobScheduler.h:159-189 | the same conservation for `Steal` |
| WorkStealingQueue.StepConservesJobs | ProjectCreation/ProjectCreation/Engine/JobScheduler.h:147-223 | one push, pop or steal on a ring that does not overflow conserves jobs, counting the pushed job |
| WorkStealingQueue.RunConservesJobs | ProjectCreation/ProjectCreation/Engine/JobScheduler.h:147-223 | over any sequence of pushes, pops and steals that never overfills the ring, the jobs handed out plus the jobs left never exceed the jobs live at the start plus the jobs pushed, and equal them when every CAS wins |
| WorkStealingQueue.NoJobReturnedTwice | ProjectCreation/ProjectCreation/Engine/JobScheduler.h:147-223 | when all live and pushed jobs are different, no job is ever handed out twice |
| WorkStealingQueue.OverfullRingReturnsJobTwice | ProjectCreation/ProjectCreation/Engine/JobScheduler.h:147-157 | `Push` does not check for a full ring: two pushes into a one-slot ring make two pops return the second job twice |
| WorkStealingQueue.JobQueue.constructor | ProjectCreation/ProjectCreation/Engine/JobScheduler.h:136-141 | a new deque has a fresh power-of-two ring and both indices at 0, so it holds no job |
| WorkStealingQueue.JobQueue.Push | ProjectCreation/ProjectCreation/Engine/JobScheduler.h:147-157 | the deque's state becomes `PushState` of the old one; with room, the job is appended to the live jobs |
| WorkStealingQueue.JobQueue.Steal | ProjectCreation/ProjectCreation/Engine/JobScheduler.h:159-189 | the deque's state and the result are `StealState` of the old state; a won CAS on a non-empty deque yields the oldest job |
| WorkStealingQueue.JobQueue.Pop | ProjectCreation/ProjectCreation/Engine/JobScheduler.h:191-223 | the deque's state and the result are `PopState` of the old state; a returned job is always the newest live one |
| Scheduler.StealVictim | ProjectCreation/ProjectCreation/Engine/JobScheduler.h:274-278 | the victim `rand() % (NumWorkerThreads + 1)` is always a valid deque index, the caller's own and the inactive one included, and every index can be drawn |
| Scheduler.MaxJobsIsPowerOfTwo | ProjectCreation/ProjectCreation/Engine/JobScheduler.h:229 | `MaxJobs = 1024` is a power of two, so rounding it up changes nothing and the mask works |
| Scheduler.PopOrStealState | ProjectCreation/ProjectCreation/Engine/JobScheduler.h:286-316 | the caller's deque is popped first; a job comes either from the newest end of its own deque or from the oldest end of another deque; when the own pop yields a job, that job is returned and no other deque is touched, which is always so with at least two own jobs; it never steals from itself, so a lost pop with the caller as victim returns nothing; only the caller's and the victim's deques change |
| Scheduler.Scheduler.constructor | ProjectCreation/ProjectCreation/Engine/JobScheduler.h:228-236 | `NumWorkerThreads + 1` distinct, fresh, empty deques |
| Scheduler.Scheduler.Launch | ProjectCreation/ProjectCreation/Engine/JobScheduler.h:280-284 | the job is pushed onto the inactive deque with index `NumWorkerThreads`, and no other deque changes |
| Scheduler.Scheduler.PopAt | ProjectCreation/ProjectCreation/Engine/JobScheduler.h:290 | popping one participant's deque changes no other deque |
| Scheduler.Scheduler.StealAt | ProjectCreation/ProjectCreation/Engine/JobScheduler.h:303 | stealing from one participant's deque changes no other deque |
| Scheduler.Scheduler.PopOrStealJob | ProjectCreation/ProjectCreation/Engine/JobScheduler.h:286-316 | the new deques and the job returned are exactly `PopOrStealState` of the old deques, for the victim `rand()` selects |
| ParallelFor.SplitLengths | ProjectCreation/ProjectCreation/Engine/JobScheduler.h:417-424 | splitting at `(end - begin) / 2 + begin` in `unsigned` arithmetic gives halves of `d / 2` and `d - d / 2` for `d = end - begin`, even when the indices wrap |
| ParallelFor.SplitRanges | ProjectCreation/ProjectCreation/Engine/JobScheduler.h:419-434 | a range longer than a chunk yields the left half's pieces followed by the right half's |
| ParallelFor.SubRangesSplitRange | ProjectCreation/ProjectCreation/Engine/JobScheduler.h:413-437 | the pieces are contiguous, start at `begin` and end at `end`; none is longer than `chunkSize`; a range that fits is one piece; pieces of a split range are at least half a chunk long |
| ParallelFor.SubRangesCoverRange | ProjectCreation/ProjectCreation/Engine/JobScheduler.h:413-437 | the piece lengths add up to `end - begin`, and there are no more pieces than indices, except the single piece of an empty range |
| ParallelFor.SubRanges | ProjectCreation/ProjectCreation/Engine/JobScheduler.h:413-437 | the split as evidently intended, defined for `chunkSize > 0` and for an empty range; it always yields at least one piece; tiling, bounds and coverage are stated by the two lemmas below |
| ParallelFor.SubRangesAsWritten | ProjectCreation/ProjectCreation/Engine/JobScheduler.h:413-437 | the recursion exactly as written, with no guard on `chunkSize`, `None` when the depth bound runs out before it ends |
| ParallelFor.AsWrittenTiles | ProjectCreation/ProjectCreation/Engine/JobScheduler.h:413-437 | whenever `SubRangesAsWritten`, the recursion exactly as written and bounded by a depth, ends, its pieces are contiguous, start at `begin` and end at `end` |
| ParallelFor.AsWrittenAgreesWithPositiveChunk | ProjectCreation/ProjectCreation/Engine/JobScheduler.h:413-437 | with `chunkSize > 0` the recursion as written ends within `end - begin` levels and yields the same pieces as `SubRanges` |
| ParallelFor.ZeroChunkNeverFinishes | ProjectCreation/ProjectCreation/Engine/JobScheduler.h:417-430 | with `chunkSize == 0` the range `[b, b + 1)` splits into `[b, b)` and itself, so the recursion as written does not end at any depth |
| ParallelFor.Indices | ProjectCreation/ProjectCreation/Engine/JobScheduler.h:396-407 | the leaf loop visits exactly the `i` with `begin <= i < end`, in strictly increasing order, `end - begin` of them; nothing when `end <= begin` |
| ParallelFor.LeavesVisitEveryIndexOnce | ProjectCreation/ProjectCreation/Engine/JobScheduler.h:376-437 | for `begin <= end`, running the leaves in order visits every index of `[begin, end)` exactly once, as one loop over the whole range would |
| ParallelFor.InvokeLeaf | ProjectCreation/ProjectCreation/Engine/JobScheduler.h:386-409 | the `for (unsigned i = _begin; i < _end; i++)` loop hands the body exactly `Indices(Range(begin, end))` |
| ParallelFor.LeafJobs | ProjectCreation/ProjectCreation/Engine/JobScheduler.h:376-385 | one unreset job per piece, whose stored tuple is that piece's `(begin, end)` |
| ParallelFor.PushAll | ProjectCreation/ProjectCreation/Engine/JobScheduler.h:446-451 | pushing several jobs in order appends them, in order, to the live jobs when the ring has room |
| ParallelFor.CreateParallelForSubJobs | ProjectCreation/ProjectCreation/Engine/JobScheduler.h:413-437 | allocates exactly one leaf job per piece of `SubRanges`, left pieces first, and returns their indices in that order |
| ParallelFor.ParallelForCompletes | ProjectCreation/ProjectCreation/Engine/JobScheduler.h:439-457 | after `ResetJobs` over freshly allocated leaves, finishing the root and every leaf once, in any order, brings all their counters to 0, so `Wait` on the root returns |
| ParallelFor.ParallelForJob.constructor | ProjectCreation/ProjectCreation/Engine/JobScheduler.h:352-356 | a root with an empty body, then the leaves, whose indices follow the root's in increasing order |
| ParallelFor.ParallelForJob.ResetJobs | ProjectCreation/ProjectCreation/Engine/JobScheduler.h:439-444 | the loop leaves the arena as `ResetTree` over the root and the children |
| ParallelFor.ParallelForJob.Launch | ProjectCreation/ProjectCreation/Engine/JobScheduler.h:446-451 | the root and then every child are pushed onto the inactive deque, in that order; no other deque changes |
| ParallelFor.ParallelForJob.SetRange | ProjectCreation/ProjectCreation/Engine/JobScheduler.h:468-476 | new leaves for the new range replace the children; the root stays |
| ParallelFor.ParallelForJob.Run | ProjectCreation/ProjectCreation/Engine/JobScheduler.h:477-482 | `operator()` resets the tree, then launches the root and every child |
| TempJobs.AppendState | ProjectCreation/ProjectCreation/Engine/JobScheduler.h:587-598 | `Append` adds one job for the task at the end of the arena, pointing to the root with counter 1, increments the root's counter modulo 2^32 and changes nothing else |
| TempJobs.AppendedCountsJobs | ProjectCreation/ProjectCreation/Engine/JobScheduler.h:587-598 | after n appends the root counts n more jobs, modulo 2^32, and keeps its parent and task |
| TempJobs.AppendedLinksJobs | ProjectCreation/ProjectCreation/Engine/JobScheduler.h:587-598 | the n appended jobs follow the old ones in order, each pointing to the root with counter 1; no other old job changes |
| TempJobs.TempJobIsResetTree | ProjectCreation/ProjectCreation/Engine/JobScheduler.h:582-598 | a temporary job with appended tasks is exactly the tree `ResetJobs` builds over the root and those jobs |
| TempJobs.TempJobCompletes | ProjectCreation/ProjectCreation/Engine/JobScheduler.h:575-616 | once the root and every appended job have each finished once, in any order, the root's counter and every appended job's counter are 0, so `Wait` returns |
| TempJobs.TempJob.constructor | ProjectCreation/ProjectCreation/Engine/JobScheduler.h:582-586 | a new root job with an empty body, no parent and counter 1, at the end of the arena |
| TempJobs.TempJob.Append | ProjectCreation/ProjectCreation/Engine/JobScheduler.h:587-598 | the arena becomes `AppendState` of the old one and the new job is pushed onto the inactive deque |
| TempJobs.TempJob.AppendJob | ProjectCreation/ProjectCreation/Engine/JobScheduler.h:599-603 | `Append(Job*)` resets the given job with the root as parent, then pushes it onto the inactive deque |
| TempJobs.TempJob.AttachJob | ProjectCreation/ProjectCreation/Engine/JobScheduler.h:599-603 | the intended `Append(Job*)`: the arena becomes `AttachJobState` of the old one and the job is pushed onto the inactive deque |
| TempJobs.TempJob.Launch | ProjectCreation/ProjectCreation/Engine/JobScheduler.h:608-611 | `operator()` pushes the root onto the inactive deque and changes nothing else |
| TempJobs.AppendKeepsBalanced | ProjectCreation/ProjectCreation/Engine/JobScheduler.h:587-598 | `Append(lambda)` on a root that has not finished keeps the arena balanced, with the new job unfinished |
| TempJobs.AppendJobForgetsAppendedJobs | ProjectCreation/ProjectCreation/Engine/JobScheduler.h:565-574 | with `Append(Job*)` as written, the usage example's job_A root, appended to job_B's root with foo's job still pending below it, finishes at once: after job_A's root and job_B's root have each finished once, job_B's counter is 0, so `job_B.Wait()` returns, while foo's job is still at 1 |
| TempJobs.AttachJobState | ProjectCreation/ProjectCreation/Engine/JobScheduler.h:599-603 | the intended `Append(Job*)`: the job gets the root as parent and keeps its counter, the root's counter goes up by one modulo 2^32, nothing else changes and parent links stay in range |
| TempJobs.AttachJobKeepsBalanced | ProjectCreation/ProjectCreation/Engine/JobScheduler.h:599-603 | attaching an unfinished job without a parent to an unfinished root keeps the arena balanced |
| TempJobs.AttachedJobsAreAwaited | ProjectCreation/ProjectCreation/Engine/JobScheduler.h:599-603 | after the intended `Append(Job*)`, while any job whose parent links lead to the root has not finished, the root's counter stays above 0 whatever distinct jobs finish meanwhile, so `Wait` on the root does not return early |
| TempJobs.AttachJobAwaitsAppendedJobs | ProjectCreation/ProjectCreation/Engine/JobScheduler.h:565-574 | on the usage example, the intended `Append(Job*)` keeps job_B's counter at 1 until foo's job has finished, and then brings it to 0 |
| HandleManagers.FirstFree | ProjectCreation/ProjectCreation/ECS/HandleManager.h:17-28 | the scan stops at the first slot that is empty or holds the object, or at the end when no slot does |
| HandleManagers.GetHandleState | ProjectCreation/ProjectCreation/ECS/HandleManager.h:15-31 | the handle's slot holds the object, so `GetObject(GetHandle(o)) == o`; it is the first slot that is empty or holds the object; the table grows only when no such slot exists, and then by `(0, o)` at the old size; no generation and no other slot changes |
| HandleManagers.GetHandleSize | ProjectCreation/ProjectCreation/ECS/HandleManager.h:29 | `GetSize` grows by at most one per `GetHandle`, and by one exactly when no slot is empty or holds the object |
| HandleManagers.GetHandleIdempotent | ProjectCreation/ProjectCreation/ECS/HandleManager.h:15-31 | a second `GetHandle` of the same object returns the same handle and leaves the table unchanged |
| HandleManagers.GetHandlePreservesReachable | ProjectCreation/ProjectCreation/ECS/HandleManager.h:15-31 | `GetHandle` keeps the tables it can build: every slot but the last holds an object, and no object appears twice |
| HandleManagers.GetHandleOfPresent | ProjectCreation/ProjectCreation/ECS/HandleManager.h:20-27 | in such a table, `GetHandle` of an object already present returns its slot and changes nothing |
| HandleManagers.HandleManager.constructor | ProjectCreation/ProjectCreation/ECS/HandleManager.h:13 | a new table is empty, which is a reachable table |
| HandleManagers.HandleManager.GetHandle | ProjectCreation/ProjectCreation/ECS/HandleManager.h:15-31 | the loop, the write and the append leave exactly `GetHandleState`'s table and handle; the object is in the returned slot; reachable tables stay reachable |
| HandleManagers.HandleManager.GetObject | ProjectCreation/ProjectCreation/ECS/HandleManager.h:32-35 | the object in the handle's slot, for an index inside the table |
| HandleManagers.HandleManager.GetSize | ProjectCreation/ProjectCreation/ECS/HandleManager.h:36-39 | the number of slots |

## Left out

- Concurrency. Barriers, `volatile`, the atomicity of the counters and the interleaving of threads are not modelled. Each compare-and-swap outcome is a parameter, and each operation runs as one step.
- `Wait` and `WorkerThreadMain`. Their loops depend on other threads and on `RunWorkerThreads`, so they are not modelled as methods; their liveness is out of scope. `Jobs.ResetTreeThenFinishAll`, `ParallelFor.ParallelForCompletes` and `TempJobs.TempJobCompletes` state when `Wait`'s loop condition becomes false.
- `Job::Invoke`, the closures and the byte layout of the job's padding buffer. This covers `CreateJobData`'s placement-new and `SetArgs`. A stored callable is a `Task` value.
- The ring-buffer job allocators (`TempJobAllocator`, `StaticJobAllocator`). Allocation appends a fresh record to the arena, so slot reuse after 1024 allocations, and the aliasing it can cause, are not modelled.
- `Jobs.JobPool.Allocate`: `CreateJobData` writes only the job's callable and leaves the parent and the counter as the reused ring slot held. The model starts them as no parent and 0. Every path of the core resets a job before its counter or parent is read, so nothing depends on that choice.
- `rand()` and `GetThreadIndex`. Both are parameters.
- `Yield()`. It has no effect on state and is omitted.
- `Initialize` and `Shutdown`. Thread creation and shutdown are not modelled.
- `GetRootJob`. It is a plain field read.
- The `long` deque indices. They are unbounded, so overflow after 2^31 operations is not modelled.
- `ParallelFor.CreateParallelForSubJobs`: requires `chunkSize > 0` or an empty range, because with `chunkSize == 0` the source's recursion does not terminate. That case is modelled separately by `ParallelFor.SubRangesAsWritten` and `ParallelFor.ZeroChunkNeverFinishes`.
- The default argument `chunkSize = 256` of `SetRange` and of the `ParallelForJob` constructor (lines 468 and 493). The model always takes `chunkSize` as an explicit argument; a call that omits it is the same as passing 256.
- `ParallelFor.ParallelForJob.SetRange`: the old leaves stay allocated in the arena. The source leaves them to its ring allocator, which is not modelled.
- `Jobs.ResetTreeThenFinishAll`: requires fewer than 2^32 - 1 children. With more, the root's counter wraps at `ResetJobs` time. The same applies to `ParallelFor.ParallelForCompletes` and `TempJobs.TempJobCompletes`.
- `TempJobs.AttachJobState`: requires the appended job to differ from the root. Appending a temporary job's root to itself creates a cycle, and the intended behaviour gives that case no sensible meaning.
- `HandleManagers.HandleManager.GetHandle`: does not model the wrap of the `uint32_t` loop index on a table of 2^32 slots or more.
- `HandleManagerAssociative` and its `Container` (`ECS/HandleManager.h` lines 62-202). They are an unfinished stub whose member functions are all commented out.
- The generation of a handle. It is never changed by this code (line 23 assigns the field to itself), and no other operation of the table uses it.

## Findings

| source | as written | input that shows it | evidently intended | confidence | as-written member | corrected member |
|---|---|---|---|---|---|---|
| ProjectCreation/ProjectCreation/Engine/JobScheduler.h:417-430 | With `chunkSize == 0`, a range of length 1 splits into an empty left half and a right half equal to the range itself, so `CreateParallelForSubJobs` recurses forever. `SetRange` passes the caller's `chunkSize` through unchecked. | `begin = 0`, `end = 1`, `chunkSize = 0` | `chunkSize` of at least 1 for a non-empty range, so every split strictly shrinks the range | not executed | ParallelFor.ZeroChunkNeverFinishes | ParallelFor.SubRanges |
| ProjectCreation/ProjectCreation/Engine/JobScheduler.h:599-603 | `Append(Job*)` calls `job->Reset(rootJob)`, which sets the appended job's counter back to 1. A job that already has pending children, such as another `TempJob`'s root, then finishes as soon as it runs, and the root it was appended to can complete before those children have run. | the usage example at lines 565-574: job_A's root, with foo's job appended, is appended to job_B; job_A's root and job_B's root each finish once | link the job to the root and increment the root's counter, keeping the job's own counter, so `Wait` on the root waits for the appended job's whole tree | not executed | TempJobs.AppendJobForgetsAppendedJobs | TempJobs.AttachJobState |

`ParallelFor.SubRanges` is proved correct by `ParallelFor.SubRangesSplitRange`, `ParallelFor.SubRangesCoverRange` and `ParallelFor.LeavesVisitEveryIndexOnce`. `ParallelFor.AsWrittenAgreesWithPositiveChunk` shows it agrees with the code as written whenever the chunk size is positive.

`TempJobs.AttachJobState` is proved correct by `TempJobs.AttachJobKeepsBalanced`, `TempJobs.AttachedJobsAreAwaited` and `TempJobs.AttachJobAwaitsAppendedJobs`. `TempJobs.TempJob.AttachJob` is the class operation built on it; `TempJobs.TempJob.AppendJob` keeps the behaviour as written.
