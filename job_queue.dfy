/**
 * The work-stealing deque (`JobQueue` of Engine/JobScheduler.h), with
 * sequential semantics.
 *
 * The deque is a power-of-two ring of job pointers and two indices: the owner
 * pushes and pops at `bottom`, a thief steals at `top`, and the live jobs are
 * the slots of `[top, bottom)` taken modulo the capacity. Each compare-and-swap
 * on `top` is modelled by a boolean saying whether it succeeded; a failed one
 * stands for a concurrent thief that got there first.
 */
module WorkStealingQueue {
  import opened Wrappers
  import opened Jobs

  /** The capacity the scheduler instantiates (`MaxJobs`, already a power of two). */
  const MAX_JOBS: nat := 1024

  predicate IsPowerOfTwo(n: nat)
  {
    n == 1 || (n > 1 && n % 2 == 0 && IsPowerOfTwo(n / 2))
  }

  /** On a 32-bit index, `b & Mask` with `Mask == MaxJobs - 1` is `b % MaxJobs`, always below `MaxJobs`. */
  lemma MaskIsModulo(b: bv32)
    ensures b & 1023 == b % 1024 && b & 1023 < 1024
  {
  }

  lemma MulAtLeast(k: int, n: int)
    requires k >= 1 && n > 0
    ensures k * n >= n
    decreases k
  {
    if k > 1 {
      MulAtLeast(k - 1, n);
      assert k * n == (k - 1) * n + n;
    }
  }

  /** A snapshot of a deque: the ring and its two indices. */
  datatype Deque = Deque(slots: seq<JobId>, top: int, bottom: int)

  /** The result of `Pop` or `Steal`: the new snapshot and the job taken, if any. */
  datatype Taken = Taken(deque: Deque, job: Option<JobId>)

  /** A ring with at least one slot and `top <= bottom`. */
  predicate Consistent(d: Deque)
  {
    |d.slots| > 0 && 0 <= d.top <= d.bottom
  }

  /** The slot `i & Mask` of the ring. */
  function Slot(d: Deque, i: int): (k: nat)
    requires Consistent(d) && 0 <= i
    ensures k < |d.slots|
  {
    i % |d.slots|
  }

  /** The live jobs, from the oldest (at `top`) to the newest (just below `bottom`). */
  function Contents(d: Deque): (c: seq<JobId>)
    requires Consistent(d)
    ensures |c| == d.bottom - d.top
  {
    seq(d.bottom - d.top, k requires 0 <= k < d.bottom - d.top => d.slots[Slot(d, d.top + k)])
  }

  /** Two indices less than one capacity apart use different slots. */
  lemma SlotsDiffer(d: Deque, x: int, y: int)
    requires Consistent(d) && 0 <= x < y && y - x < |d.slots|
    ensures Slot(d, x) != Slot(d, y)
  {
    var n := |d.slots|;
    var qx, qy := x / n, y / n;
    var k := qy - qx;
    assert qy * n - qx * n == k * n;
    assert y - x == k * n + (y % n - x % n);
    if k >= 1 {
      MulAtLeast(k, n);
    } else if k <= -1 {
      MulAtLeast(-k, n);
      assert (-k) * n == -(k * n);
    }
  }

  /** Writing slot `bottom & Mask` of a deque that is not full keeps every live job and adds one at the bottom. */
  lemma WriteBelowBottom(d: Deque, job: JobId)
    requires Consistent(d) && d.bottom - d.top < |d.slots|
    ensures var r := d.(slots := d.slots[Slot(d, d.bottom) := job], bottom := d.bottom + 1);
            Consistent(r) && Contents(r) == Contents(d) + [job]
  {
    var b := Slot(d, d.bottom);
    var r := d.(slots := d.slots[b := job], bottom := d.bottom + 1);
    var c, c' := Contents(d), Contents(r);
    assert |r.slots| == |d.slots|;
    forall k | 0 <= k < |c'| ensures c'[k] == (c + [job])[k] {
      var i := d.top + k;
      assert Slot(r, i) == Slot(d, i);
      if k < |c| {
        SlotsDiffer(d, i, d.bottom);
        assert c'[k] == r.slots[Slot(d, i)] == d.slots[Slot(d, i)] == c[k];
      } else {
        assert i == d.bottom;
      }
    }
  }

  /**
   * `Push`: write the job into slot `bottom & Mask`, then publish `bottom + 1`.
   * Nothing checks for a full ring: on a full deque the write lands on the
   * oldest job's slot.
   */
  function PushState(d: Deque, job: JobId): (r: Deque)
    requires Consistent(d)
    ensures Consistent(r) && |r.slots| == |d.slots|
    ensures r.top == d.top && r.bottom == d.bottom + 1
    ensures r.slots[Slot(d, d.bottom)] == job
    ensures forall k :: 0 <= k < |d.slots| && k != Slot(d, d.bottom) ==> r.slots[k] == d.slots[k]
    ensures d.bottom - d.top < |d.slots| ==> Contents(r) == Contents(d) + [job]
  {
    if d.bottom - d.top < |d.slots| then WriteBelowBottom(d, job); d.(slots := d.slots[Slot(d, d.bottom) := job], bottom := d.bottom + 1)
    else d.(slots := d.slots[Slot(d, d.bottom) := job], bottom := d.bottom + 1)
  }

  /** Moving `bottom` down by one drops the newest live job. */
  lemma DropNewest(d: Deque)
    requires Consistent(d) && d.top < d.bottom
    ensures var r := d.(bottom := d.bottom - 1);
            Consistent(r) && Contents(r) == Contents(d)[..|Contents(d)| - 1]
  {
    var r := d.(bottom := d.bottom - 1);
    forall k | 0 <= k < r.bottom - r.top ensures Contents(r)[k] == Contents(d)[k] {
      assert Slot(r, r.top + k) == Slot(d, d.top + k);
    }
  }

  /** Moving `top` up by one drops the oldest live job. */
  lemma DropOldest(d: Deque)
    requires Consistent(d) && d.top < d.bottom
    ensures var r := d.(top := d.top + 1);
            Consistent(r) && Contents(r) == Contents(d)[1..]
  {
    var r := d.(top := d.top + 1);
    forall k | 0 <= k < r.bottom - r.top ensures Contents(r)[k] == Contents(d)[k + 1] {
      assert Slot(r, r.top + k) == Slot(d, d.top + k + 1);
    }
  }

  /**
   * `Pop`: take the newest job. With two or more jobs no compare-and-swap is
   * needed; the last job is raced for with a CAS on `top`, after which both
   * indices sit at `top + 1` whoever won; on an empty deque `bottom` is put
   * back to `top`.
   */
  function PopState(d: Deque, casWins: bool): (r: Taken)
    requires Consistent(d)
    ensures Consistent(r.deque) && r.deque.slots == d.slots
    ensures var c := Contents(d);
            && (c == [] ==> r.job == None && r.deque == d)
            && (|c| >= 2 ==> r.job == Some(c[|c| - 1]) && r.deque == d.(bottom := d.bottom - 1))
            && (|c| == 1 ==> r.job == (if casWins then Some(c[0]) else None)
                             && r.deque.top == r.deque.bottom == d.top + 1)
            && (c != [] ==> Contents(r.deque) == c[..|c| - 1])
  {
    var b := d.bottom - 1;
    var t := d.top;
    if t <= b then
      var job := d.slots[Slot(d, b)];
      if t != b then
        DropNewest(d);
        Taken(d.(bottom := b), Some(job))
      else
        Taken(d.(top := t + 1, bottom := t + 1), if casWins then Some(job) else None)
    else
      Taken(d.(bottom := t), None)
  }

  /**
   * `Steal`: take the oldest job by moving `top` forward with a CAS. An empty
   * deque, or a lost CAS, yields no job and leaves the snapshot as it was.
   */
  function StealState(d: Deque, casWins: bool): (r: Taken)
    requires Consistent(d)
    ensures Consistent(r.deque) && r.deque.slots == d.slots
    ensures var c := Contents(d);
            && (c != [] && casWins ==> r.job == Some(c[0]) && r.deque == d.(top := d.top + 1)
                                       && Contents(r.deque) == c[1..])
            && (c == [] || !casWins ==> r.job == None && r.deque == d)
  {
    var t := d.top;
    var b := d.bottom;
    if t < b then
      var job := d.slots[Slot(d, t)];
      if !casWins then
        Taken(d, None)
      else
        DropOldest(d);
        Taken(d.(top := t + 1), Some(job))
    else
      Taken(d, None)
  }

  /** A push followed by a pop of the same owner gives the pushed job back and restores the live jobs. */
  lemma PushThenPop(d: Deque, job: JobId, casWins: bool)
    requires Consistent(d) && d.bottom - d.top < |d.slots|
    requires d.bottom > d.top || casWins
    ensures var r := PopState(PushState(d, job), casWins);
            r.job == Some(job) && Contents(r.deque) == Contents(d)
  {
    var c := Contents(d);
    var p := PushState(d, job);
    assert Contents(p) == c + [job];
    assert (c + [job])[..|c|] == c;
  }

  // ----- Sequences of operations on one deque -----

  datatype Op = PushOp(job: JobId) | PopOp(casWins: bool) | StealOp(casWins: bool)

  function Apply(d: Deque, op: Op): (r: Taken)
    requires Consistent(d)
    ensures Consistent(r.deque)
  {
    match op
    case PushOp(job) => Taken(PushState(d, job), None)
    case PopOp(casWins) => PopState(d, casWins)
    case StealOp(casWins) => StealState(d, casWins)
  }

  /** Every push of `ops` finds a free slot: the caller contract that the ring never overflows. */
  predicate NeverOverfull(d: Deque, ops: seq<Op>)
    requires Consistent(d)
    decreases |ops|
  {
    ops != [] ==>
      && (ops[0].PushOp? ==> d.bottom - d.top < |d.slots|)
      && NeverOverfull(Apply(d, ops[0]).deque, ops[1..])
  }

  /** Run `ops` in order: the final snapshot and the jobs returned by pops and steals, in order. */
  function Run(d: Deque, ops: seq<Op>): (r: (Deque, seq<JobId>))
    requires Consistent(d)
    ensures Consistent(r.0)
    decreases |ops|
  {
    if ops == [] then (d, [])
    else
      var step := Apply(d, ops[0]);
      var rest := Run(step.deque, ops[1..]);
      (rest.0, (if step.job.Some? then [step.job.value] else []) + rest.1)
  }

  function Pushed(ops: seq<Op>): seq<JobId>
  {
    if ops == [] then [] else (if ops[0].PushOp? then [ops[0].job] else []) + Pushed(ops[1..])
  }

  predicate AllCasWin(ops: seq<Op>)
  {
    forall i :: 0 <= i < |ops| ==> !ops[i].PushOp? ==> ops[i].casWins
  }

  /** The job an operation hands out, as a sequence of zero or one jobs. */
  function Handed(t: Taken): seq<JobId>
  {
    if t.job.Some? then [t.job.value] else []
  }

  function PushedBy(op: Op): seq<JobId>
  {
    if op.PushOp? then [op.job] else []
  }

  lemma PopConservesJobs(d: Deque, casWins: bool)
    requires Consistent(d)
    ensures var t := PopState(d, casWins);
            && multiset(Handed(t)) + multiset(Contents(t.deque)) <= multiset(Contents(d))
            && (casWins ==> multiset(Handed(t)) + multiset(Contents(t.deque)) == multiset(Contents(d)))
  {
    var c := Contents(d);
    var t := PopState(d, casWins);
    if c != [] {
      var n := |c| - 1;
      assert c == c[..n] + [c[n]];
      assert Contents(t.deque) == c[..n];
      assert Handed(t) == [c[n]] || (Handed(t) == [] && !casWins);
    }
  }

  lemma StealConservesJobs(d: Deque, casWins: bool)
    requires Consistent(d)
    ensures var t := StealState(d, casWins);
            && multiset(Handed(t)) + multiset(Contents(t.deque)) <= multiset(Contents(d))
            && (casWins ==> multiset(Handed(t)) + multiset(Contents(t.deque)) == multiset(Contents(d)))
  {
    var c := Contents(d);
    var t := StealState(d, casWins);
    if c != [] && casWins {
      assert c == [c[0]] + c[1..];
      assert Contents(t.deque) == c[1..];
      assert Handed(t) == [c[0]];
    }
  }

  /** One operation: what it hands out plus what stays live is what was live plus what it pushed, less a job lost to a race. */
  lemma StepConservesJobs(d: Deque, op: Op)
    requires Consistent(d) && (op.PushOp? ==> d.bottom - d.top < |d.slots|)
    ensures var t := Apply(d, op);
            multiset(Handed(t)) + multiset(Contents(t.deque)) <= multiset(Contents(d)) + multiset(PushedBy(op))
    ensures var t := Apply(d, op);
            (op.PushOp? || op.casWins) ==>
            multiset(Handed(t)) + multiset(Contents(t.deque)) == multiset(Contents(d)) + multiset(PushedBy(op))
  {
    match op
    case PushOp(job) =>
      assert Contents(Apply(d, op).deque) == Contents(d) + [job];
    case PopOp(casWins) => PopConservesJobs(d, casWins);
    case StealOp(casWins) => StealConservesJobs(d, casWins);
  }

  /** Chaining two conservation steps, pointwise on multiplicities. */
  lemma ChainConservation(handed: multiset<JobId>, mid: multiset<JobId>, before: multiset<JobId>, pushed1: multiset<JobId>,
                          out: multiset<JobId>, after: multiset<JobId>, pushed2: multiset<JobId>)
    requires handed + mid <= before + pushed1
    requires out + after <= mid + pushed2
    ensures handed + out + after <= before + pushed1 + pushed2
  {
    forall x ensures (handed + out + after)[x] <= (before + pushed1 + pushed2)[x] {
      assert (handed + mid)[x] <= (before + pushed1)[x];
      assert (out + after)[x] <= (mid + pushed2)[x];
    }
  }

  lemma ChainConservationExact(handed: multiset<JobId>, mid: multiset<JobId>, before: multiset<JobId>, pushed1: multiset<JobId>,
                               out: multiset<JobId>, after: multiset<JobId>, pushed2: multiset<JobId>)
    requires handed + mid == before + pushed1
    requires out + after == mid + pushed2
    ensures handed + out + after == before + pushed1 + pushed2
  {
    forall x ensures (handed + out + after)[x] == (before + pushed1 + pushed2)[x] {
      assert (handed + mid)[x] == (before + pushed1)[x];
      assert (out + after)[x] == (mid + pushed2)[x];
    }
  }

  lemma AllCasWinTail(ops: seq<Op>)
    requires ops != [] && AllCasWin(ops)
    ensures AllCasWin(ops[1..]) && (ops[0].PushOp? || ops[0].casWins)
  {
    forall i | 0 <= i < |ops[1..]| ensures !ops[1..][i].PushOp? ==> ops[1..][i].casWins {
      assert ops[1..][i] == ops[i + 1];
    }
  }

  /**
   * Pops and steals only hand out jobs that were live or pushed: the jobs
   * returned plus the jobs still live never exceed, as a multiset, the jobs that
   * were live at the start plus the jobs pushed, and they are equal when every
   * compare-and-swap succeeds.
   */
  lemma {:induction false} RunConservesJobs(d: Deque, ops: seq<Op>)
    requires Consistent(d) && NeverOverfull(d, ops)
    ensures var (e, out) := Run(d, ops);
            multiset(out) + multiset(Contents(e)) <= multiset(Contents(d)) + multiset(Pushed(ops))
    ensures var (e, out) := Run(d, ops);
            AllCasWin(ops) ==> multiset(out) + multiset(Contents(e)) == multiset(Contents(d)) + multiset(Pushed(ops))
    decreases |ops|
  {
    if ops != [] {
      var step := Apply(d, ops[0]);
      var (e, out) := Run(step.deque, ops[1..]);
      assert Run(d, ops) == (e, Handed(step) + out);
      assert Pushed(ops) == PushedBy(ops[0]) + Pushed(ops[1..]);
      var handed, mid := multiset(Handed(step)), multiset(Contents(step.deque));
      var before, pushed1, pushed2 := multiset(Contents(d)), multiset(PushedBy(ops[0])), multiset(Pushed(ops[1..]));
      assert multiset(Handed(step) + out) == handed + multiset(out);
      assert multiset(Pushed(ops)) == pushed1 + pushed2;
      StepConservesJobs(d, ops[0]);
      RunConservesJobs(step.deque, ops[1..]);
      ChainConservation(handed, mid, before, pushed1, multiset(out), multiset(Contents(e)), pushed2);
      if AllCasWin(ops) {
        AllCasWinTail(ops);
        ChainConservationExact(handed, mid, before, pushed1, multiset(out), multiset(Contents(e)), pushed2);
      }
    }
  }

  lemma MultiplicityOneIsDistinct(xs: seq<JobId>)
    requires forall x :: multiset(xs)[x] <= 1
    ensures Distinct(xs)
  {
    forall i, j | 0 <= i < j < |xs| ensures xs[i] != xs[j] {
      assert xs == xs[..j] + xs[j..];
      assert xs[i] in xs[..j] && xs[j] in xs[j..];
      assert multiset(xs)[xs[j]] == multiset(xs[..j])[xs[j]] + multiset(xs[j..])[xs[j]];
    }
  }

  /**
   * When the live jobs and the pushed jobs are all different, pops and steals
   * together never return a job twice and never return more jobs than there were.
   */
  lemma NoJobReturnedTwice(d: Deque, ops: seq<Op>)
    requires Consistent(d) && NeverOverfull(d, ops)
    requires Distinct(Contents(d) + Pushed(ops))
    ensures var out := Run(d, ops).1;
            Distinct(out) && |out| <= |Contents(d)| + |Pushed(ops)|
  {
    var (e, out) := Run(d, ops);
    var all := Contents(d) + Pushed(ops);
    RunConservesJobs(d, ops);
    assert multiset(out) <= multiset(all);
    forall x ensures multiset(out)[x] <= 1 {
      DistinctMultiplicity(all, x);
    }
    MultiplicityOneIsDistinct(out);
    SubMultisetIsSmaller(multiset(out), multiset(all));
  }

  lemma SubMultisetIsSmaller(a: multiset<JobId>, b: multiset<JobId>)
    requires a <= b
    ensures |a| <= |b|
  {
    assert b == a + (b - a);
  }

  /** Without the caller contract the guarantee fails: two pushes into a one-slot ring hand the second job out twice. */
  lemma OverfullRingReturnsJobTwice()
    ensures var d := Deque([0], 0, 0);
            var ops := [PushOp(7), PushOp(8), PopOp(true), PopOp(true)];
            !NeverOverfull(d, ops) && Run(d, ops).1 == [8, 8]
  {
    var d := Deque([0], 0, 0);
    var d1 := PushState(d, 7);
    var d2 := PushState(d1, 8);
    assert d2 == Deque([8], 0, 2);
    assert Contents(d2) == [8, 8];
    var p1 := PopState(d2, true);
    assert p1 == Taken(Deque([8], 0, 1), Some(8));
    var p2 := PopState(p1.deque, true);
    assert p2 == Taken(Deque([8], 1, 1), Some(8));
  }

  /** The deque of one participant, as `JobQueue<MaxJobs>` holds it. */
  class JobQueue {
    const ring: array<JobId>
    var top: int
    var bottom: int

    ghost predicate Valid()
      reads this
    {
      IsPowerOfTwo(ring.Length) && ring.Length > 0 && 0 <= top <= bottom
    }

    function State(): Deque
      reads this, ring
    {
      Deque(ring[..], top, bottom)
    }

    /** The live jobs, oldest first. */
    ghost function Jobs(): seq<JobId>
      reads this, ring
      requires Valid()
    {
      Contents(State())
    }

    constructor (maxJobs: nat)
      requires IsPowerOfTwo(maxJobs)
      ensures Valid() && fresh(ring) && ring.Length == maxJobs
      ensures top == 0 && bottom == 0 && Jobs() == []
    {
      ring := new JobId[maxJobs];
      bottom := 0;
      top := 0;
    }

    method Push(job: JobId)
      requires Valid()
      modifies this, ring
      ensures Valid() && State() == PushState(old(State()), job)
      ensures old(bottom - top) < ring.Length ==> Jobs() == old(Jobs()) + [job]
    {
      var b := bottom;
      ring[b % ring.Length] := job;
      bottom := b + 1;
    }

    method Steal(casWins: bool) returns (job: Option<JobId>)
      requires Valid()
      modifies this
      ensures Valid() && Taken(State(), job) == StealState(old(State()), casWins)
      ensures old(Jobs()) != [] && casWins ==> job == Some(old(Jobs())[0]) && Jobs() == old(Jobs())[1..]
    {
      var t := top;
      var b := bottom;
      if t < b {
        var candidate := ring[t % ring.Length];
        if !casWins {
          // the compare-and-swap on top failed: another thread took the job
          return None;
        }
        top := t + 1;
        return Some(candidate);
      } else {
        return None;
      }
    }

    method Pop(casWins: bool) returns (job: Option<JobId>)
      requires Valid()
      modifies this
      ensures Valid() && Taken(State(), job) == PopState(old(State()), casWins)
      ensures job.Some? ==> old(Jobs()) != [] && job.value == old(Jobs())[|old(Jobs())| - 1]
    {
      var b := bottom - 1;
      bottom := b;
      var t := top;
      if t <= b {
        var candidate := ring[b % ring.Length];
        if t != b {
          // more than one job was left
          return Some(candidate);
        }
        // the last job: race the thieves with a CAS on top; a lost race means a
        // thief has already moved top to t + 1
        top := t + 1;
        job := if casWins then Some(candidate) else None;
        bottom := t + 1;
      } else {
        // nothing was left to pop: put bottom back at top
        bottom := t;
        job := None;
      }
    }
  }
}
