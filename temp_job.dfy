/**
 * `TempJob` of Engine/JobScheduler.h: a root job with an empty body that
 * other jobs are appended to as children. Each appended job is launched at
 * once; launching the root (`operator()`) lets `Wait` return once the root
 * and every appended job have finished.
 */
module TempJobs {
  import opened Wrappers
  import opened UInt32
  import opened Jobs
  import opened WorkStealingQueue
  import opened Scheduler
  import opened ParallelFor

  /** The arena after `Append(task)`: a new job holding `task` is allocated and reset with `root` as its parent. */
  function AppendState(s: seq<JobRecord>, root: JobId, task: Task): (r: seq<JobRecord>)
    requires root < |s|
    ensures |r| == |s| + 1
    ensures r[|s|] == JobRecord(Some(root), 1, task)
    ensures r[root] == s[root].(unfinishedJobs := Inc32(s[root].unfinishedJobs))
    ensures forall k :: 0 <= k < |s| && k != root ==> r[k] == s[k]
  {
    ResetWithParentState(s + [JobRecord(None, 0, task)], |s|, root)
  }

  /** The arena after appending the first `n` of `tasks`, one after the other. */
  function Appended(s: seq<JobRecord>, root: JobId, tasks: seq<Task>, n: nat): (r: seq<JobRecord>)
    requires root < |s| && n <= |tasks|
    ensures |r| == |s| + n
    decreases n
  {
    if n == 0 then s else AppendState(Appended(s, root, tasks, n - 1), root, tasks[n - 1])
  }

  /** After `n` appends the root counts `n` more unfinished jobs, modulo 2^32, and keeps its parent and task. */
  lemma {:induction false} AppendedCountsJobs(s: seq<JobRecord>, root: JobId, tasks: seq<Task>, n: nat)
    requires root < |s| && n <= |tasks|
    ensures var r := Appended(s, root, tasks, n);
            && r[root].parent == s[root].parent && r[root].task == s[root].task
            && r[root].unfinishedJobs == (s[root].unfinishedJobs + n) % U32_LIMIT
    decreases n
  {
    if n == 0 {
      assert (s[root].unfinishedJobs + 0) % U32_LIMIT == s[root].unfinishedJobs;
    } else {
      var t := Appended(s, root, tasks, n - 1);
      AppendedCountsJobs(s, root, tasks, n - 1);
      var r := AppendState(t, root, tasks[n - 1]);
      CountOneMore(s[root].unfinishedJobs, n, t[root].unfinishedJobs, r[root].unfinishedJobs);
    }
  }

  /**
   * The `n` appended jobs follow the old ones, in order, each with the root as
   * parent and a counter of one; no old job but the root changes.
   */
  lemma {:induction false} AppendedLinksJobs(s: seq<JobRecord>, root: JobId, tasks: seq<Task>, n: nat)
    requires root < |s| && n <= |tasks|
    ensures var r := Appended(s, root, tasks, n);
            && (forall i :: 0 <= i < n ==> r[|s| + i] == JobRecord(Some(root), 1, tasks[i]))
            && (forall k :: 0 <= k < |s| && k != root ==> r[k] == s[k])
    decreases n
  {
    if n > 0 {
      var t := Appended(s, root, tasks, n - 1);
      AppendedLinksJobs(s, root, tasks, n - 1);
      var r := AppendState(t, root, tasks[n - 1]);
      forall i | 0 <= i < n ensures r[|s| + i] == JobRecord(Some(root), 1, tasks[i]) {
        if i < n - 1 {
          assert r[|s| + i] == t[|s| + i];
        }
      }
    }
  }

  /** The job records freshly allocated for `tasks`, not yet reset. */
  function Fresh(tasks: seq<Task>): (js: seq<JobRecord>)
    ensures |js| == |tasks|
    ensures forall i :: 0 <= i < |tasks| ==> js[i] == JobRecord(None, 0, tasks[i])
  {
    seq(|tasks|, i requires 0 <= i < |tasks| => JobRecord(None, 0, tasks[i]))
  }

  /** The arena a temporary job's tree is built over: the root's record and the appended jobs' records, freshly allocated. */
  function Spawned(s: seq<JobRecord>, tasks: seq<Task>): (r: seq<JobRecord>)
    ensures |r| == |s| + 1 + |tasks|
    ensures r[..|s|] == s
  {
    s + [JobRecord(None, 0, NoOp)] + Fresh(tasks)
  }

  /** The state after the constructor and appending every one of `tasks`. */
  function Built(s: seq<JobRecord>, tasks: seq<Task>): (r: seq<JobRecord>)
    ensures |r| == |s| + 1 + |tasks|
  {
    Appended(ResetState(s + [JobRecord(None, 0, NoOp)], |s|), |s|, tasks, |tasks|)
  }

  lemma NotInIds(start: nat, n: nat, k: nat)
    requires k < start
    ensures k !in Ids(start, n)
  {
  }

  lemma BuiltRecord(s: seq<JobRecord>, tasks: seq<Task>, k: nat)
    requires k < |s| + 1 + |tasks|
    ensures k < |s| ==> Built(s, tasks)[k] == s[k]
    ensures k == |s| ==> Built(s, tasks)[k] == JobRecord(None, (1 + |tasks|) % U32_LIMIT, NoOp)
    ensures |s| < k ==> Built(s, tasks)[k] == JobRecord(Some(|s|), 1, tasks[k - |s| - 1])
  {
    var created := ResetState(s + [JobRecord(None, 0, NoOp)], |s|);
    AppendedCountsJobs(created, |s|, tasks, |tasks|);
    AppendedLinksJobs(created, |s|, tasks, |tasks|);
    if |s| < k {
      var i := k - |s| - 1;
      assert Built(s, tasks)[|created| + i] == JobRecord(Some(|s|), 1, tasks[i]);
    }
  }

  lemma TreeRecord(s: seq<JobRecord>, tasks: seq<Task>, k: nat)
    requires k < |s| + 1 + |tasks|
    ensures var t := ResetTree(Spawned(s, tasks), |s|, Ids(|s| + 1, |tasks|));
            && (k < |s| ==> t[k] == s[k])
            && (k == |s| ==> t[k] == JobRecord(None, (1 + |tasks|) % U32_LIMIT, NoOp))
            && (|s| < k ==> t[k] == JobRecord(Some(|s|), 1, tasks[k - |s| - 1]))
  {
    var spawned := Spawned(s, tasks);
    var children := Ids(|s| + 1, |tasks|);
    if k < |s| {
      NotInIds(|s| + 1, |tasks|, k);
      assert spawned[k] == s[k];
    } else if k == |s| {
      assert spawned[k].task == NoOp;
    } else {
      assert children[k - |s| - 1] == k;
      assert spawned[k].task == tasks[k - |s| - 1];
    }
  }

  /**
   * A temporary job with `tasks` appended is the same tree as `ResetJobs`
   * builds over a root and its children: the root has no parent and counts
   * itself and every appended job.
   */
  lemma TempJobIsResetTree(s: seq<JobRecord>, tasks: seq<Task>)
    ensures Built(s, tasks) == ResetTree(Spawned(s, tasks), |s|, Ids(|s| + 1, |tasks|))
  {
    var a := Built(s, tasks);
    var t := ResetTree(Spawned(s, tasks), |s|, Ids(|s| + 1, |tasks|));
    forall k | 0 <= k < |a| ensures a[k] == t[k] {
      BuiltRecord(s, tasks, k);
      TreeRecord(s, tasks, k);
    }
  }

  /** Freshly allocated jobs have no parent, so the arena stays well formed. */
  lemma SpawnedWellFormed(s: seq<JobRecord>, tasks: seq<Task>)
    requires WellFormed(s)
    ensures WellFormed(Spawned(s, tasks))
  {
    var t := Spawned(s, tasks);
    forall k | 0 <= k < |t| && t[k].parent.Some? ensures t[k].parent.value < |t| {
      assert k < |s| && t[k] == s[k];
    }
  }

  /**
   * The usage the source documents: once the root and every appended job
   * have each finished once, in any order, every counter of the tree is zero
   * and `Wait` on the root returns.
   */
  lemma TempJobCompletes(s: seq<JobRecord>, tasks: seq<Task>, order: seq<JobId>)
    requires WellFormed(s)
    requires |tasks| + 1 < U32_LIMIT
    requires multiset(order) == multiset([|s|] + Ids(|s| + 1, |tasks|))
    ensures var t := Built(s, tasks);
            && WellFormed(t)
            && (forall i :: 0 <= i < |order| ==> order[i] < |t|)
            && var r := FinishAll(t, order);
               forall k :: |s| <= k < |r| ==> r[k].unfinishedJobs == 0
  {
    SpawnedWellFormed(s, tasks);
    TempJobIsResetTree(s, tasks);
    SpawnedTreeCompletes(Spawned(s, tasks), |s|, |tasks|, order);
  }

  /** The tree over a root at `root` and the `n` jobs after it completes once each of them has finished. */
  lemma SpawnedTreeCompletes(t: seq<JobRecord>, root: JobId, n: nat, order: seq<JobId>)
    requires WellFormed(t) && |t| == root + 1 + n
    requires n + 1 < U32_LIMIT
    requires multiset(order) == multiset([root] + Ids(root + 1, n))
    ensures var tree := ResetTree(t, root, Ids(root + 1, n));
            && WellFormed(tree)
            && (forall i :: 0 <= i < |order| ==> order[i] < |tree|)
            && var r := FinishAll(tree, order);
               forall k :: root <= k < |r| ==> r[k].unfinishedJobs == 0
  {
    var children := Ids(root + 1, n);
    IdsAreDistinct(root + 1, n);
    ResetTreeThenFinishAll(t, root, children, order);
    var r := FinishAll(ResetTree(t, root, children), order);
    forall k | root < k < |r| ensures r[k].unfinishedJobs == 0 {
      assert children[k - root - 1] == k;
    }
  }

  /** How `Append(lambda)` changes the pending children: the root gains the new job, nobody else changes. */
  lemma AppendPendingChildren(s: seq<JobRecord>, root: JobId, task: Task, k: JobId)
    requires WellFormed(s) && root < |s| && s[root].unfinishedJobs > 0
    requires s[root].unfinishedJobs < U32_LIMIT - 1 && k <= |s|
    ensures var t := AppendState(s, root, task);
            PendingChildren(t, k)
            == (if k == root then PendingChildren(s, k) + {|s|} else if k < |s| then PendingChildren(s, k) else {})
  {
    var t := AppendState(s, root, task);
    assert forall c :: 0 <= c < |s| && c != root ==> t[c] == s[c];
    assert t[root].parent == s[root].parent && t[root].unfinishedJobs > 0;
  }

  /** `Append(lambda)` on a root that has not finished keeps the arena balanced, with the new job live. */
  lemma AppendKeepsBalanced(s: seq<JobRecord>, live: set<JobId>, root: JobId, task: Task)
    requires WellFormed(s) && Balanced(s, live) && root in live
    requires s[root].unfinishedJobs < U32_LIMIT - 1
    ensures Balanced(AppendState(s, root, task), live + {|s|})
  {
    var t := AppendState(s, root, task);
    forall k | 0 <= k < |t|
      ensures t[k].unfinishedJobs == (if k in live + {|s|} then 1 else 0) + |PendingChildren(t, k)|
    {
      AppendPendingChildren(s, root, task, k);
      if k == root {
        assert |s| !in PendingChildren(s, k);
      }
    }
  }

  /**
   * `Append(Job*)` as evidently intended: the job is linked to the root and
   * the root counts one more unfinished job, but the job keeps its counter, so
   * the jobs already appended to it stay counted.
   */
  function AttachJobState(s: seq<JobRecord>, j: JobId, root: JobId): (r: seq<JobRecord>)
    requires j < |s| && root < |s| && j != root
    ensures |r| == |s|
    ensures r[j] == s[j].(parent := Some(root))
    ensures r[root] == s[root].(unfinishedJobs := Inc32(s[root].unfinishedJobs))
    ensures forall k :: 0 <= k < |s| && k != j && k != root ==> r[k] == s[k]
    ensures WellFormed(s) ==> WellFormed(r)
  {
    s[j := s[j].(parent := Some(root))][root := s[root].(unfinishedJobs := Inc32(s[root].unfinishedJobs))]
  }

  /** How attaching `j` to `root` changes the pending children: the root gains `j`, nobody else changes. */
  lemma AttachPendingChildren(s: seq<JobRecord>, live: set<JobId>, j: JobId, root: JobId, k: JobId)
    requires Balanced(s, live) && j in live && root in live && j != root
    requires s[j].parent.None? && s[root].unfinishedJobs < U32_LIMIT - 1 && k < |s|
    ensures var t := AttachJobState(s, j, root);
            PendingChildren(t, k) == (if k == root then PendingChildren(s, k) + {j} else PendingChildren(s, k))
  {
    var t := AttachJobState(s, j, root);
    assert forall c :: 0 <= c < |s| && c != j && c != root ==> t[c] == s[c];
    assert t[root].parent == s[root].parent && t[root].unfinishedJobs > 0 && s[root].unfinishedJobs > 0;
    assert t[j].unfinishedJobs > 0;
  }

  /** Attaching a live job without a parent to a live root keeps the arena balanced. */
  lemma AttachJobKeepsBalanced(s: seq<JobRecord>, live: set<JobId>, j: JobId, root: JobId)
    requires Balanced(s, live) && j in live && root in live && j != root
    requires s[j].parent.None? && s[root].unfinishedJobs < U32_LIMIT - 1
    ensures Balanced(AttachJobState(s, j, root), live)
  {
    var t := AttachJobState(s, j, root);
    forall k | 0 <= k < |t|
      ensures t[k].unfinishedJobs == (if k in live then 1 else 0) + |PendingChildren(t, k)|
    {
      AttachPendingChildren(s, live, j, root, k);
      if k == root {
        assert j !in PendingChildren(s, k);
      }
    }
  }

  /**
   * With the intended `Append(Job*)`, `Wait` on the root covers every job
   * below it: while any job whose ancestors reach the root has not finished,
   * the root's counter stays above 0, whatever the jobs finished meanwhile.
   */
  lemma AttachedJobsAreAwaited(s: seq<JobRecord>, live: set<JobId>, j: JobId, root: JobId,
                               order: seq<JobId>, d: JobId, n: nat)
    requires WellFormed(s) && Balanced(s, live) && j in live && root in live && j != root
    requires s[j].parent.None? && s[root].unfinishedJobs < U32_LIMIT - 1
    requires Distinct(order) && forall i :: 0 <= i < |order| ==> order[i] in live
    requires d < |s| && Ancestor(AttachJobState(s, j, root), d, n) == Some(root)
    requires d in live && d !in Members(order)
    ensures forall i :: 0 <= i < |order| ==> order[i] < |s|
    ensures FinishAll(AttachJobState(s, j, root), order)[root].unfinishedJobs > 0
  {
    var t := AttachJobState(s, j, root);
    AttachJobKeepsBalanced(s, live, j, root);
    FinishAllKeepsBalanced(t, live, order);
    var r := FinishAll(t, order);
    AncestorSameParents(t, r, d, n);
    if r[root].unfinishedJobs == 0 {
      CompletedJobCompletesDescendants(r, live - Members(order), root, d, n);
    }
  }

  /**
   * The usage example of `TempJob`, as written: job 0 is job_A's root, job 1
   * is appended to it, job 2 is job_B's root, and job_A's root is appended to
   * job_B with `Append(Job*)`. That resets job 0's counter to 1 and forgets
   * job 1, so once jobs 0 and 2 have finished, job_B's counter is 0 and `Wait`
   * returns although job 1, a descendant of job 2, has not run.
   */
  lemma AppendJobForgetsAppendedJobs()
    ensures var a := ResetState([JobRecord(None, 0, NoOp)], 0);
            var b := ResetState(AppendState(a, 0, Closure(0)) + [JobRecord(None, 0, NoOp)], 2);
            var t := ResetWithParentState(b, 0, 2);
            && WellFormed(t)
            && Ancestor(t, 1, 2) == Some(2)
            && FinishAll(t, [0, 2])[2].unfinishedJobs == 0
            && FinishAll(t, [0, 2])[1].unfinishedJobs == 1
  {
    var a := ResetState([JobRecord(None, 0, NoOp)], 0);
    var b := ResetState(AppendState(a, 0, Closure(0)) + [JobRecord(None, 0, NoOp)], 2);
    assert b == [JobRecord(None, 2, NoOp), JobRecord(Some(0), 1, Closure(0)), JobRecord(None, 1, NoOp)];
    var t := ResetWithParentState(b, 0, 2);
    assert t == [JobRecord(Some(2), 1, NoOp), JobRecord(Some(0), 1, Closure(0)), JobRecord(None, 2, NoOp)];
    var t0 := [JobRecord(Some(2), 0, NoOp), JobRecord(Some(0), 1, Closure(0)), JobRecord(None, 2, NoOp)];
    assert FinishState(t, 0) == FinishState(t0, 2);
    FinishWithoutPropagation(t0, 2);
    var t1 := FinishState(t, 0);
    assert t1 == [JobRecord(Some(2), 0, NoOp), JobRecord(Some(0), 1, Closure(0)), JobRecord(None, 1, NoOp)];
    assert FinishAll(t, [0, 2]) == FinishAll(t1, [2]);
    FinishWithoutPropagation(t1, 2);
    assert FinishState(t1, 2) == [JobRecord(Some(2), 0, NoOp), JobRecord(Some(0), 1, Closure(0)), JobRecord(None, 0, NoOp)];
  }

  /** The same example with the intended `Append(Job*)`: job_B's root waits for job 1 and completes after it. */
  lemma AttachJobAwaitsAppendedJobs()
    ensures var a := ResetState([JobRecord(None, 0, NoOp)], 0);
            var b := ResetState(AppendState(a, 0, Closure(0)) + [JobRecord(None, 0, NoOp)], 2);
            var t := AttachJobState(b, 0, 2);
            && WellFormed(t)
            && FinishAll(t, [0, 2])[2].unfinishedJobs == 1
            && FinishAll(t, [0, 2, 1])[2].unfinishedJobs == 0
  {
    var a := ResetState([JobRecord(None, 0, NoOp)], 0);
    var b := ResetState(AppendState(a, 0, Closure(0)) + [JobRecord(None, 0, NoOp)], 2);
    assert b == [JobRecord(None, 2, NoOp), JobRecord(Some(0), 1, Closure(0)), JobRecord(None, 1, NoOp)];
    var t := AttachJobState(b, 0, 2);
    assert t == [JobRecord(Some(2), 2, NoOp), JobRecord(Some(0), 1, Closure(0)), JobRecord(None, 2, NoOp)];
    var t1 := FinishState(t, 0);
    assert t1 == [JobRecord(Some(2), 1, NoOp), JobRecord(Some(0), 1, Closure(0)), JobRecord(None, 2, NoOp)];
    var t2 := FinishState(t1, 2);
    assert t2 == [JobRecord(Some(2), 1, NoOp), JobRecord(Some(0), 1, Closure(0)), JobRecord(None, 1, NoOp)];
    assert FinishAll(t, [0, 2]) == FinishAll(t2, []);
    var t3 := [JobRecord(Some(2), 1, NoOp), JobRecord(Some(0), 0, Closure(0)), JobRecord(None, 1, NoOp)];
    assert Dec32(t2[1].unfinishedJobs) == 0 && t2[1 := t2[1].(unfinishedJobs := 0)] == t3;
    assert FinishState(t2, 1) == FinishState(t3, 0);
    var t4 := [JobRecord(Some(2), 0, NoOp), JobRecord(Some(0), 0, Closure(0)), JobRecord(None, 1, NoOp)];
    assert FinishState(t3, 0) == FinishState(t4, 2);
    FinishWithoutPropagation(t4, 2);
    assert FinishAll(t, [0, 2, 1]) == FinishAll(FinishState(t2, 1), []);
  }

  /** A temporary job: the root job in the job arena. */
  class TempJob {
    const pool: JobPool
    const rootJob: JobId

    ghost predicate Valid()
      reads this, pool
    {
      pool.Valid() && rootJob < |pool.jobs|
    }

    /** The constructor: a root job with an empty body, reset so that it counts itself. */
    constructor (p: JobPool)
      requires p.Valid()
      modifies p
      ensures Valid() && pool == p
      ensures rootJob == |old(p.jobs)|
      ensures p.jobs == ResetState(old(p.jobs) + [JobRecord(None, 0, NoOp)], rootJob)
      ensures p.jobs == old(p.jobs) + [JobRecord(None, 1, NoOp)]
    {
      var r := p.Allocate(NoOp);
      p.Reset(r);
      pool := p;
      rootJob := r;
    }

    /** `Append(lambda, args...)`: a new job for `task`, attached to the root and launched. */
    method Append(task: Task, sched: Scheduler) returns (job: JobId)
      requires Valid() && sched.Valid()
      modifies pool, sched.jobQueues[sched.numWorkerThreads], sched.jobQueues[sched.numWorkerThreads].ring
      ensures Valid() && sched.Valid()
      ensures job == |old(pool.jobs)|
      ensures pool.jobs == AppendState(old(pool.jobs), rootJob, task)
      ensures var n := sched.numWorkerThreads;
              sched.States() == old(sched.States())[n := PushState(old(sched.States())[n], job)]
    {
      ghost var queues := sched.States();
      job := pool.Allocate(task);
      pool.ResetWithParent(job, rootJob);
      assert sched.States() == queues;
      ghost var jobs := pool.jobs;
      sched.Launch(job);
      assert pool.jobs == jobs;
    }

    /** `Append(Job*)`: an existing job is reset with the root as its parent and launched. */
    method AppendJob(job: JobId, sched: Scheduler)
      requires Valid() && sched.Valid() && job < |pool.jobs|
      modifies pool, sched.jobQueues[sched.numWorkerThreads], sched.jobQueues[sched.numWorkerThreads].ring
      ensures Valid() && sched.Valid()
      ensures pool.jobs == ResetWithParentState(old(pool.jobs), job, rootJob)
      ensures var n := sched.numWorkerThreads;
              sched.States() == old(sched.States())[n := PushState(old(sched.States())[n], job)]
    {
      ghost var queues := sched.States();
      pool.ResetWithParent(job, rootJob);
      assert sched.States() == queues;
      ghost var jobs := pool.jobs;
      sched.Launch(job);
      assert pool.jobs == jobs;
    }

    /** `Append(Job*)` as evidently intended: the job is linked to the root, keeping its own counter, and launched. */
    method AttachJob(job: JobId, sched: Scheduler)
      requires Valid() && sched.Valid() && job < |pool.jobs| && job != rootJob
      modifies pool, sched.jobQueues[sched.numWorkerThreads], sched.jobQueues[sched.numWorkerThreads].ring
      ensures Valid() && sched.Valid()
      ensures pool.jobs == AttachJobState(old(pool.jobs), job, rootJob)
      ensures var n := sched.numWorkerThreads;
              sched.States() == old(sched.States())[n := PushState(old(sched.States())[n], job)]
    {
      ghost var queues := sched.States();
      pool.jobs := AttachJobState(pool.jobs, job, rootJob);
      assert sched.States() == queues;
      ghost var jobs := pool.jobs;
      sched.Launch(job);
      assert pool.jobs == jobs;
    }

    /** `operator()`: the root itself is launched. */
    method Launch(sched: Scheduler)
      requires Valid() && sched.Valid()
      modifies sched.jobQueues[sched.numWorkerThreads], sched.jobQueues[sched.numWorkerThreads].ring
      ensures Valid() && sched.Valid()
      ensures var n := sched.numWorkerThreads;
              sched.States() == old(sched.States())[n := PushState(old(sched.States())[n], rootJob)]
    {
      sched.Launch(rootJob);
    }
  }
}
