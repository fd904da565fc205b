/**
 * The scheduler runtime of Engine/JobScheduler.h: one deque per participant
 * (the worker threads plus the "inactive" slot that `Launch` fills), `Launch`
 * and `PopOrStealJob`.
 *
 * The calling thread's index (the thread-local `GetThreadIndex`) and the value
 * `rand()` returns are parameters; so is the outcome of each compare-and-swap.
 */
module Scheduler {
  import opened Wrappers
  import opened Jobs
  import opened WorkStealingQueue

  /** `GetStealJobQueue`: the victim is `rand() % (NumWorkerThreads + 1)`, any participant, the caller included. */
  function StealVictim(numWorkerThreads: nat, rnd: nat): (v: nat)
    ensures v <= numWorkerThreads
    ensures rnd <= numWorkerThreads ==> v == rnd
  {
    rnd % (numWorkerThreads + 1)
  }

  /** Snapshots of every participant's deque and the job handed to the caller, if any. */
  datatype Fetch = Fetch(queues: seq<Deque>, job: Option<JobId>)

  predicate AllConsistent(qs: seq<Deque>)
  {
    forall i :: 0 <= i < |qs| ==> Consistent(qs[i])
  }

  /**
   * `PopOrStealJob`: pop the caller's own deque; only if that yields nothing,
   * and only if the victim is another participant, steal from the victim.
   */
  function PopOrStealState(qs: seq<Deque>, me: nat, victim: nat, popWins: bool, stealWins: bool): (r: Fetch)
    requires AllConsistent(qs) && me < |qs| && victim < |qs|
    ensures |r.queues| == |qs| && AllConsistent(r.queues)
    // the caller's own deque is always popped first
    ensures r.queues[me] == PopState(qs[me], popWins).deque
    // a job comes either from the newest end of the caller's deque or from the oldest end of another deque
    ensures r.job.Some? ==>
              || (Contents(qs[me]) != [] && r.job.value == Contents(qs[me])[|Contents(qs[me])| - 1])
              || (victim != me && Contents(qs[victim]) != [] && r.job.value == Contents(qs[victim])[0])
    // with two or more jobs of its own, the caller takes its newest one and touches no other deque
    ensures |Contents(qs[me])| >= 2 ==>
              r.job == Some(Contents(qs[me])[|Contents(qs[me])| - 1])
              && forall i :: 0 <= i < |qs| && i != me ==> r.queues[i] == qs[i]
    // a job of its own is returned as the pop hands it over, and no other deque is touched
    ensures PopState(qs[me], popWins).job.Some? ==>
              r.job == PopState(qs[me], popWins).job
              && forall i :: 0 <= i < |qs| && i != me ==> r.queues[i] == qs[i]
    // it never steals from itself, not even after losing the race for its last job
    ensures PopState(qs[me], popWins).job.None? && victim == me ==>
              r.job == None && r.queues == qs[me := PopState(qs[me], popWins).deque]
    ensures Contents(qs[me]) == [] && victim == me ==> r.job == None && r.queues == qs
    ensures Contents(qs[me]) == [] && victim != me ==>
              r.queues == qs[victim := StealState(qs[victim], stealWins).deque]
              && r.job == StealState(qs[victim], stealWins).job
    ensures forall i :: 0 <= i < |qs| && i != me && i != victim ==> r.queues[i] == qs[i]
  {
    var popped := PopState(qs[me], popWins);
    var qs1 := qs[me := popped.deque];
    if popped.job.Some? then
      Fetch(qs1, popped.job)
    else if victim == me then
      Fetch(qs1, None)
    else
      var stolen := StealState(qs1[victim], stealWins);
      Fetch(qs1[victim := stolen.deque], stolen.job)
  }

  lemma MaxJobsIsPowerOfTwo()
    ensures IsPowerOfTwo(MAX_JOBS)
  {
    assert IsPowerOfTwo(1);
    assert IsPowerOfTwo(2);
    assert IsPowerOfTwo(4);
    assert IsPowerOfTwo(8);
    assert IsPowerOfTwo(16);
    assert IsPowerOfTwo(32);
    assert IsPowerOfTwo(64);
    assert IsPowerOfTwo(128);
    assert IsPowerOfTwo(256);
    assert IsPowerOfTwo(512);
  }

  /** The deques of all participants, `JobQueues` in the source. */
  class Scheduler {
    const numWorkerThreads: nat
    const jobQueues: seq<JobQueue>

    ghost function Arrays(): set<array<JobId>>
      reads this
    {
      set i | 0 <= i < |jobQueues| :: jobQueues[i].ring
    }

    ghost predicate Valid()
      reads this, jobQueues
    {
      && |jobQueues| == numWorkerThreads + 1
      && (forall i :: 0 <= i < |jobQueues| ==> jobQueues[i].Valid())
      && (forall i, j :: 0 <= i < j < |jobQueues| ==> jobQueues[i] != jobQueues[j])
      && (forall i, j :: 0 <= i < j < |jobQueues| ==> jobQueues[i].ring != jobQueues[j].ring)
    }

    /** Snapshots of every deque. */
    ghost function States(): (qs: seq<Deque>)
      reads this, jobQueues, Arrays()
      requires Valid()
      ensures |qs| == |jobQueues| && AllConsistent(qs)
    {
      seq(|jobQueues|, i reads this, jobQueues, Arrays() requires 0 <= i < |jobQueues| && Valid() =>
        assert jobQueues[i].ring in Arrays();
        jobQueues[i].State())
    }

    /** The part of `Initialize` that allocates one empty deque per participant. */
    constructor (workers: nat)
      ensures Valid() && numWorkerThreads == workers
      ensures forall i :: 0 <= i < |jobQueues| ==> fresh(jobQueues[i]) && fresh(jobQueues[i].ring)
      ensures forall i :: 0 <= i < |jobQueues| ==> Contents(jobQueues[i].State()) == []
    {
      MaxJobsIsPowerOfTwo();
      var qs: seq<JobQueue> := [];
      while |qs| < workers + 1
        invariant |qs| <= workers + 1
        invariant forall i :: 0 <= i < |qs| ==> fresh(qs[i]) && fresh(qs[i].ring) && qs[i].Valid()
        invariant forall i :: 0 <= i < |qs| ==> qs[i].top == 0 && qs[i].bottom == 0
        invariant forall i, j :: 0 <= i < j < |qs| ==> qs[i] != qs[j] && qs[i].ring != qs[j].ring
      {
        var q := new JobQueue(MAX_JOBS);
        qs := qs + [q];
      }
      numWorkerThreads := workers;
      jobQueues := qs;
    }

    /** `Launch`: push the job into the deque of the inactive index `NumWorkerThreads`, from which any worker may steal it. */
    method Launch(job: JobId)
      requires Valid()
      modifies jobQueues[numWorkerThreads], jobQueues[numWorkerThreads].ring
      ensures Valid()
      ensures States() == old(States())[numWorkerThreads := PushState(old(States())[numWorkerThreads], job)]
    {
      ghost var before := States();
      var q := jobQueues[numWorkerThreads];
      q.Push(job);
      forall i | 0 <= i < |jobQueues| && i != numWorkerThreads
        ensures jobQueues[i].State() == before[i]
      {
        assert jobQueues[i].ring != q.ring;
      }
    }

    /** `JobQueues[i]->Pop()`: only deque `i` changes. */
    method PopAt(i: nat, wins: bool) returns (job: Option<JobId>)
      requires Valid() && i < |jobQueues|
      modifies jobQueues[i]
      ensures Valid()
      ensures job == PopState(old(States())[i], wins).job
      ensures States() == old(States())[i := PopState(old(States())[i], wins).deque]
    {
      ghost var before := States();
      var q := jobQueues[i];
      job := q.Pop(wins);
      forall k | 0 <= k < |jobQueues| && k != i
        ensures jobQueues[k].State() == before[k]
      {
        assert jobQueues[k] != q;
      }
    }

    /** `JobQueues[i]->Steal()`: only deque `i` changes. */
    method StealAt(i: nat, wins: bool) returns (job: Option<JobId>)
      requires Valid() && i < |jobQueues|
      modifies jobQueues[i]
      ensures Valid()
      ensures job == StealState(old(States())[i], wins).job
      ensures States() == old(States())[i := StealState(old(States())[i], wins).deque]
    {
      ghost var before := States();
      var q := jobQueues[i];
      job := q.Steal(wins);
      forall k | 0 <= k < |jobQueues| && k != i
        ensures jobQueues[k].State() == before[k]
      {
        assert jobQueues[k] != q;
      }
    }

    /**
     * `PopOrStealJob` for the participant `me`, with victim
     * `rand() % (NumWorkerThreads + 1)` for the random value `rnd`.
     */
    method PopOrStealJob(me: nat, rnd: nat, popWins: bool, stealWins: bool) returns (job: Option<JobId>)
      requires Valid() && me < |jobQueues|
      modifies jobQueues[me], jobQueues[StealVictim(numWorkerThreads, rnd)]
      ensures Valid()
      ensures Fetch(States(), job) == PopOrStealState(old(States()), me, StealVictim(numWorkerThreads, rnd), popWins, stealWins)
    {
      job := PopAt(me, popWins);
      if job.None? {
        var victim := StealVictim(numWorkerThreads, rnd);
        if jobQueues[victim] == jobQueues[me] {
          // the victim is the caller's own deque, which was just found empty
          return None;
        }
        job := StealAt(victim, stealWins);
      }
    }
  }
}
