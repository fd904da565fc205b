/**
 * `ParallelForJobImpl` of Engine/JobScheduler.h: a range `[begin, end)` of
 * `unsigned` indices is split in halves until each piece is at most
 * `chunkSize` long, one leaf job per piece runs the loop body over its
 * indices, and a root job with an empty body counts the leaves down.
 *
 * The loop body is left abstract: a leaf's run is modelled by the sequence of
 * indices it hands to the body.
 */
module ParallelFor {
  import opened Wrappers
  import opened UInt32
  import opened Jobs
  import opened WorkStealingQueue
  import opened Scheduler

  /** The `std::tuple<unsigned, unsigned>(begin, end)` stored in a leaf job. */
  datatype Range = Range(begin: u32, end: u32)

  /** `end - begin` in `unsigned` arithmetic. */
  function Length(r: Range): u32
  {
    Sub32(r.end, r.begin)
  }

  function TotalLength(rs: seq<Range>): nat
  {
    if rs == [] then 0 else Length(rs[0]) + TotalLength(rs[1..])
  }

  lemma {:induction false} TotalLengthConcat(a: seq<Range>, b: seq<Range>)
    ensures TotalLength(a + b) == TotalLength(a) + TotalLength(b)
  {
    if a == [] {
      assert a + b == b;
    } else {
      assert (a + b)[1..] == a[1..] + b;
      TotalLengthConcat(a[1..], b);
    }
  }

  /** Splitting `[begin, end)` at `begin + h` in `unsigned` arithmetic gives pieces of `h` and `end - begin - h`. */
  lemma SplitLengths(begin: u32, end: u32, h: u32)
    requires h <= Sub32(end, begin)
    ensures Sub32(Add32(h, begin), begin) == h
    ensures Sub32(end, Add32(h, begin)) == Sub32(end, begin) - h
  {
  }

  /** `r` cuts `[begin, end)` into contiguous pieces, in order. */
  predicate Tiles(r: seq<Range>, begin: u32, end: u32)
  {
    && |r| >= 1 && r[0].begin == begin && r[|r| - 1].end == end
    && forall i :: 0 <= i < |r| - 1 ==> r[i].end == r[i + 1].begin
  }

  predicate AtMost(r: seq<Range>, n: int)
  {
    forall i :: 0 <= i < |r| ==> Length(r[i]) <= n
  }

  predicate AtLeast(r: seq<Range>, n: int)
  {
    forall i :: 0 <= i < |r| ==> Length(r[i]) >= n
  }

  lemma TilesConcat(left: seq<Range>, right: seq<Range>, begin: u32, mid: u32, end: u32)
    requires Tiles(left, begin, mid) && Tiles(right, mid, end)
    ensures Tiles(left + right, begin, end)
  {
    var r := left + right;
    forall i | 0 <= i < |r| - 1 ensures r[i].end == r[i + 1].begin {
      if i < |left| - 1 {
        assert r[i] == left[i] && r[i + 1] == left[i + 1];
      } else if i == |left| - 1 {
        assert r[i] == left[i] && r[i + 1] == right[0];
      } else {
        assert r[i] == right[i - |left|] && r[i + 1] == right[i + 1 - |left|];
      }
    }
  }

  lemma BoundsConcat(left: seq<Range>, right: seq<Range>, lo: int, hi: int)
    requires AtMost(left, hi) && AtMost(right, hi)
    requires AtLeast(left, lo) && AtLeast(right, lo)
    ensures AtMost(left + right, hi) && AtLeast(left + right, lo)
  {
    var r := left + right;
    forall i | 0 <= i < |r| ensures lo <= Length(r[i]) <= hi {
      if i < |left| {
        assert r[i] == left[i];
      } else {
        assert r[i] == right[i - |left|];
      }
    }
  }

  /** Both halves of a range longer than a chunk are at least half a chunk, and shorter than the range when the chunk is not empty. */
  lemma HalfBounds(d: int, chunkSize: int)
    requires 0 <= chunkSize < d
    ensures d / 2 >= (chunkSize + 1) / 2 && d - d / 2 >= (chunkSize + 1) / 2
    ensures chunkSize > 0 ==> 1 <= d / 2 < d && 1 <= d - d / 2 < d
  {
  }

  /**
   * The ranges of the leaf jobs `CreateParallelForSubJobs` creates, in order.
   * Differences and midpoints wrap as `unsigned` does, so a range with
   * `end < begin` is split as the long range it is in 32-bit arithmetic.
   * With `chunkSize == 0` only an empty range is split finitely (see
   * `ZeroChunkNeverFinishes`).
   */
  function SubRanges(begin: u32, end: u32, chunkSize: u32): (r: seq<Range>)
    requires chunkSize > 0 || begin == end
    ensures |r| >= 1
    decreases Sub32(end, begin)
  {
    var d := Sub32(end, begin);
    if d <= chunkSize then
      [Range(begin, end)]
    else
      var mid := Add32(d / 2, begin);
      SubRanges(begin, mid, chunkSize) + SubRanges(mid, end, chunkSize)
  }

  /** One level of the split: a range longer than a chunk is the left half's pieces followed by the right half's. */
  lemma SplitRanges(begin: u32, end: u32, chunkSize: u32)
    requires chunkSize > 0 && Sub32(end, begin) > chunkSize
    ensures var d := Sub32(end, begin);
            var mid := Add32(d / 2, begin);
            && Sub32(mid, begin) == d / 2 && Sub32(end, mid) == d - d / 2
            && SubRanges(begin, end, chunkSize) == SubRanges(begin, mid, chunkSize) + SubRanges(mid, end, chunkSize)
  {
    var d := Sub32(end, begin);
    SplitLengths(begin, end, d / 2);
  }

  /**
   * What `CreateParallelForSubJobs` promises of its pieces: they are
   * contiguous and cover the range exactly, none is longer than a chunk, a
   * range that fits in a chunk is not split, and a split range yields pieces
   * of at least half a chunk, so none of them is empty.
   */
  lemma {:induction false} SubRangesSplitRange(begin: u32, end: u32, chunkSize: u32)
    requires chunkSize > 0 || begin == end
    ensures var r := SubRanges(begin, end, chunkSize);
            && Tiles(r, begin, end)
            && AtMost(r, chunkSize)
            && (Sub32(end, begin) <= chunkSize ==> r == [Range(begin, end)])
            && (Sub32(end, begin) > chunkSize ==> AtLeast(r, (chunkSize + 1) / 2))
    decreases Sub32(end, begin)
  {
    var d := Sub32(end, begin);
    if d > chunkSize {
      var mid := Add32(d / 2, begin);
      SplitRanges(begin, end, chunkSize);
      HalfBounds(d, chunkSize);
      var left := SubRanges(begin, mid, chunkSize);
      var right := SubRanges(mid, end, chunkSize);
      SubRangesSplitRange(begin, mid, chunkSize);
      SubRangesSplitRange(mid, end, chunkSize);
      TilesConcat(left, right, begin, mid, end);
      BoundsConcat(left, right, (chunkSize + 1) / 2, chunkSize);
    }
  }

  /**
   * The pieces add up to the whole range, and there are no more pieces than
   * indices (but one, for an empty range).
   */
  lemma {:induction false} SubRangesCoverRange(begin: u32, end: u32, chunkSize: u32)
    requires chunkSize > 0 || begin == end
    ensures var r := SubRanges(begin, end, chunkSize);
            TotalLength(r) == Sub32(end, begin) && (|r| == 1 || |r| <= Sub32(end, begin))
    decreases Sub32(end, begin)
  {
    var d := Sub32(end, begin);
    if d <= chunkSize {
      assert TotalLength([Range(begin, end)]) == Length(Range(begin, end)) + TotalLength([]);
    } else {
      var mid := Add32(d / 2, begin);
      SplitRanges(begin, end, chunkSize);
      SplitLengths(begin, end, d / 2);
      SubRangesCoverRange(begin, mid, chunkSize);
      SubRangesCoverRange(mid, end, chunkSize);
      TotalLengthConcat(SubRanges(begin, mid, chunkSize), SubRanges(mid, end, chunkSize));
    }
  }

  /**
   * `CreateParallelForSubJobs` exactly as written, with a bound on the
   * recursion depth: `None` when the bound runs out before the recursion
   * ends. No precondition on `chunkSize`.
   */
  function SubRangesAsWritten(begin: u32, end: u32, chunkSize: u32, fuel: nat): (r: Option<seq<Range>>)
    decreases fuel
  {
    var d := Sub32(end, begin);
    if d <= chunkSize then
      Some([Range(begin, end)])
    else if fuel == 0 then
      None
    else
      var mid := Add32(d / 2, begin);
      var left := SubRangesAsWritten(begin, mid, chunkSize, fuel - 1);
      var right := SubRangesAsWritten(mid, end, chunkSize, fuel - 1);
      if left.Some? && right.Some? then
        Some(left.value + right.value)
      else
        None
  }

  /** Whenever the recursion as written ends, its pieces tile the range. */
  lemma {:induction false} AsWrittenTiles(begin: u32, end: u32, chunkSize: u32, fuel: nat)
    ensures var r := SubRangesAsWritten(begin, end, chunkSize, fuel);
            r.Some? ==> Tiles(r.value, begin, end)
    decreases fuel
  {
    var d := Sub32(end, begin);
    if d > chunkSize && fuel > 0 {
      var mid := Add32(d / 2, begin);
      AsWrittenTiles(begin, mid, chunkSize, fuel - 1);
      AsWrittenTiles(mid, end, chunkSize, fuel - 1);
      AsWrittenStep(begin, end, chunkSize, fuel, mid);
      var left := SubRangesAsWritten(begin, mid, chunkSize, fuel - 1);
      var right := SubRangesAsWritten(mid, end, chunkSize, fuel - 1);
      if left.Some? && right.Some? {
        TilesConcat(left.value, right.value, begin, mid, end);
      }
    }
  }

  /** One level of the recursion as written: a range longer than a chunk is its halves' pieces, if both end within one level less. */
  lemma AsWrittenStep(begin: u32, end: u32, chunkSize: u32, fuel: nat, mid: u32)
    requires fuel > 0 && Sub32(end, begin) > chunkSize && mid == Add32(Sub32(end, begin) / 2, begin)
    ensures var left := SubRangesAsWritten(begin, mid, chunkSize, fuel - 1);
            var right := SubRangesAsWritten(mid, end, chunkSize, fuel - 1);
            left.Some? && right.Some? ==> SubRangesAsWritten(begin, end, chunkSize, fuel) == Some(left.value + right.value)
  {
  }

  /** A range that fits in a chunk is one piece, in both recursions. */
  lemma AsWrittenLeaf(begin: u32, end: u32, chunkSize: u32, fuel: nat)
    requires Sub32(end, begin) <= chunkSize
    ensures SubRangesAsWritten(begin, end, chunkSize, fuel) == Some([Range(begin, end)])
    ensures SubRanges(begin, end, chunkSize) == [Range(begin, end)]
  {
  }

  /** With a positive chunk size the recursion as written ends within `end - begin` levels, with `SubRanges`'s pieces. */
  lemma {:induction false} AsWrittenAgreesWithPositiveChunk(begin: u32, end: u32, chunkSize: u32, fuel: nat)
    requires chunkSize > 0 && fuel > Sub32(end, begin)
    ensures SubRangesAsWritten(begin, end, chunkSize, fuel) == Some(SubRanges(begin, end, chunkSize))
    decreases fuel
  {
    var d := Sub32(end, begin);
    if d > chunkSize {
      var mid := Add32(d / 2, begin);
      SplitLengths(begin, end, d / 2);
      AsWrittenAgreesWithPositiveChunk(begin, mid, chunkSize, fuel - 1);
      AsWrittenAgreesWithPositiveChunk(mid, end, chunkSize, fuel - 1);
      AsWrittenJoin(begin, end, chunkSize, fuel, mid);
    } else {
      AsWrittenLeaf(begin, end, chunkSize, fuel);
    }
  }

  /** If both halves agree with `SubRanges`, so does the whole range. */
  lemma AsWrittenJoin(begin: u32, end: u32, chunkSize: u32, fuel: nat, mid: u32)
    requires chunkSize > 0 && fuel > 0 && Sub32(end, begin) > chunkSize && mid == Add32(Sub32(end, begin) / 2, begin)
    requires SubRangesAsWritten(begin, mid, chunkSize, fuel - 1) == Some(SubRanges(begin, mid, chunkSize))
    requires SubRangesAsWritten(mid, end, chunkSize, fuel - 1) == Some(SubRanges(mid, end, chunkSize))
    ensures SubRangesAsWritten(begin, end, chunkSize, fuel) == Some(SubRanges(begin, end, chunkSize))
  {
    AsWrittenStep(begin, end, chunkSize, fuel, mid);
    SplitRanges(begin, end, chunkSize);
  }

  /**
   * With `chunkSize == 0`, the range `[b, b + 1)` splits into `[b, b)` and
   * `[b, b + 1)` again: the recursion as written never ends, whatever the
   * depth allowed.
   */
  lemma {:induction false} ZeroChunkNeverFinishes(b: u32, fuel: nat)
    requires b < U32_LIMIT - 1
    ensures SubRangesAsWritten(b, b + 1, 0, fuel) == None
    decreases fuel
  {
    if fuel > 0 {
      assert Add32(Sub32(b + 1, b) / 2, b) == b;
      ZeroChunkNeverFinishes(b, fuel - 1);
    }
  }

  /** The indices the leaf loop `for (unsigned i = _begin; i < _end; i++)` hands to the body, in order. */
  function Indices(r: Range): (idx: seq<u32>)
    ensures forall i: u32 :: i in idx <==> r.begin <= i < r.end
    ensures forall j, k :: 0 <= j < k < |idx| ==> idx[j] < idx[k]
    ensures r.begin <= r.end ==> |idx| == r.end - r.begin
  {
    if r.begin < r.end then
      var idx := seq(r.end - r.begin, k requires 0 <= k < r.end - r.begin => (r.begin + k) as u32);
      forall i: u32 | r.begin <= i < r.end ensures i in idx {
        assert idx[i - r.begin] == i;
      }
      idx
    else
      []
  }

  lemma IndicesSplit(b: u32, m: u32, e: u32)
    requires b <= m <= e
    ensures Indices(Range(b, e)) == Indices(Range(b, m)) + Indices(Range(m, e))
  {
    var whole, left, right := Indices(Range(b, e)), Indices(Range(b, m)), Indices(Range(m, e));
    if b < e {
      assert |whole| == |left + right|;
      forall k | 0 <= k < |whole| ensures whole[k] == (left + right)[k] {
        if k < m - b {
          assert left[k] == b + k;
        } else {
          assert right[k - (m - b)] == m + (k - (m - b));
        }
      }
    }
  }

  /** The indices handed to the body by the leaves of `rs`, leaf by leaf. */
  function Visits(rs: seq<Range>): seq<u32>
  {
    if rs == [] then [] else Indices(rs[0]) + Visits(rs[1..])
  }

  lemma {:induction false} VisitsConcat(a: seq<Range>, b: seq<Range>)
    ensures Visits(a + b) == Visits(a) + Visits(b)
  {
    if a == [] {
      assert a + b == b;
    } else {
      assert (a + b)[1..] == a[1..] + b;
      VisitsConcat(a[1..], b);
    }
  }

  /**
   * For `begin <= end`, running every leaf visits each index of `[begin, end)`
   * exactly once, in increasing order: the same indices as a single loop.
   */
  lemma {:induction false} LeavesVisitEveryIndexOnce(begin: u32, end: u32, chunkSize: u32)
    requires begin <= end && (chunkSize > 0 || begin == end)
    ensures Visits(SubRanges(begin, end, chunkSize)) == Indices(Range(begin, end))
    decreases end - begin
  {
    var d := Sub32(end, begin);
    if d <= chunkSize {
      assert SubRanges(begin, end, chunkSize)[1..] == [];
    } else {
      var mid := Add32(d / 2, begin);
      assert mid == begin + d / 2;
      var left := SubRanges(begin, mid, chunkSize);
      var right := SubRanges(mid, end, chunkSize);
      LeavesVisitEveryIndexOnce(begin, mid, chunkSize);
      LeavesVisitEveryIndexOnce(mid, end, chunkSize);
      VisitsConcat(left, right);
      IndicesSplit(begin, mid, end);
    }
  }

  /** The loop inside a leaf job's `invokeImpl`: the indices it passes to the body, in order. */
  method InvokeLeaf(r: Range) returns (visited: seq<u32>)
    ensures visited == Indices(r)
  {
    visited := [];
    var i := r.begin;
    while i < r.end
      invariant r.begin < r.end ==> r.begin <= i <= r.end
      invariant r.begin >= r.end ==> i == r.begin
      invariant visited == Indices(Range(r.begin, i))
      decreases r.end - i
    {
      IndicesSplit(r.begin, i, i + 1);
      assert Indices(Range(i, i + 1)) == [i];
      visited := visited + [i];
      i := i + 1;
    }
  }

  /** The job records of freshly allocated leaf jobs for the pieces `rs`, not yet reset. */
  function LeafJobs(rs: seq<Range>): (js: seq<JobRecord>)
    ensures |js| == |rs|
    ensures forall i :: 0 <= i < |rs| ==> js[i].task == Leaf(rs[i].begin, rs[i].end)
  {
    seq(|rs|, i requires 0 <= i < |rs| => JobRecord(None, 0, Leaf(rs[i].begin, rs[i].end)))
  }

  lemma LeafJobsConcat(a: seq<Range>, b: seq<Range>)
    ensures LeafJobs(a + b) == LeafJobs(a) + LeafJobs(b)
  {
    assert forall i :: 0 <= i < |a| ==> (a + b)[i] == a[i];
    assert forall i :: 0 <= i < |b| ==> (a + b)[|a| + i] == b[i];
  }

  /** `n` consecutive job indices from `start`. */
  function Ids(start: nat, n: nat): (ids: seq<JobId>)
    ensures |ids| == n
    ensures forall i :: 0 <= i < n ==> ids[i] == start + i
  {
    seq(n, i requires 0 <= i < n => start + i)
  }

  /** Pushing `jobs` one after another onto a deque. */
  function PushAll(d: Deque, jobs: seq<JobId>): (r: Deque)
    requires Consistent(d)
    ensures Consistent(r) && |r.slots| == |d.slots|
    ensures r.top == d.top && r.bottom == d.bottom + |jobs|
    ensures d.bottom - d.top + |jobs| <= |d.slots| ==> Contents(r) == Contents(d) + jobs
  {
    if jobs == [] then d
    else
      var n := |jobs| - 1;
      assert jobs[..n] + [jobs[n]] == jobs;
      PushState(PushAll(d, jobs[..n]), jobs[n])
  }

  /**
   * `CreateParallelForSubJobs`: allocates one leaf job per piece, left
   * pieces first, and returns their indices.
   */
  method CreateParallelForSubJobs(pool: JobPool, begin: u32, end: u32, chunkSize: u32) returns (output: seq<JobId>)
    requires pool.Valid() && (chunkSize > 0 || begin == end)
    modifies pool
    ensures pool.Valid()
    ensures pool.jobs == old(pool.jobs) + LeafJobs(SubRanges(begin, end, chunkSize))
    ensures output == Ids(|old(pool.jobs)|, |SubRanges(begin, end, chunkSize)|)
    decreases Sub32(end, begin)
  {
    var d := Sub32(end, begin);
    if d <= chunkSize {
      var leaf := pool.Allocate(Leaf(begin, end));
      output := [leaf];
      assert LeafJobs([Range(begin, end)]) == [JobRecord(None, 0, Leaf(begin, end))];
      assert output == Ids(leaf, 1);
    } else {
      var mid := Add32(d / 2, begin);
      SplitRanges(begin, end, chunkSize);
      ghost var lr, rr := SubRanges(begin, mid, chunkSize), SubRanges(mid, end, chunkSize);
      ghost var before := pool.jobs;
      var left := CreateParallelForSubJobs(pool, begin, mid, chunkSize);
      ghost var between := pool.jobs;
      assert left == Ids(|before|, |lr|) && |between| == |before| + |lr|;
      var right := CreateParallelForSubJobs(pool, mid, end, chunkSize);
      assert right == Ids(|between|, |rr|);
      LeafJobsConcat(lr, rr);
      ConcatAssociative(before, LeafJobs(lr), LeafJobs(rr));
      IdsConcat(left, right, |before|, |lr|, |rr|);
      output := left + right;
    }
  }

  lemma ConcatAssociative<T>(a: seq<T>, b: seq<T>, c: seq<T>)
    ensures (a + b) + c == a + (b + c)
  {
  }

  lemma IdsConcat(left: seq<JobId>, right: seq<JobId>, start: nat, n: nat, m: nat)
    requires left == Ids(start, n) && right == Ids(start + n, m)
    ensures left + right == Ids(start, n + m)
  {
  }

  lemma IdsAreDistinct(start: nat, n: nat)
    ensures Distinct(Ids(start, n))
  {
  }

  /** Freshly allocated leaf jobs have no parent, so appending them keeps the arena well formed. */
  lemma AppendLeavesWellFormed(s: seq<JobRecord>, leaves: seq<Range>)
    requires WellFormed(s)
    ensures WellFormed(s + LeafJobs(leaves))
  {
    var t := s + LeafJobs(leaves);
    forall k | 0 <= k < |t| && t[k].parent.Some? ensures t[k].parent.value < |t| {
      assert k < |s| && t[k] == s[k];
    }
  }

  /**
   * A parallel for completes: after `ResetJobs` on a root and the leaf jobs
   * allocated after it, finishing the root and every leaf once, in any
   * order, brings every counter of the tree to zero, so `Wait(root)` ends.
   */
  lemma ParallelForCompletes(s: seq<JobRecord>, root: JobId, leaves: seq<Range>, order: seq<JobId>)
    requires WellFormed(s) && root < |s|
    requires |leaves| + 1 < U32_LIMIT
    requires multiset(order) == multiset([root] + Ids(|s|, |leaves|))
    ensures var t := s + LeafJobs(leaves);
            var children := Ids(|s|, |leaves|);
            && WellFormed(t)
            && (forall i :: 0 <= i < |order| ==> order[i] < |t|)
            && var r := FinishAll(ResetTree(t, root, children), order);
               && r[root].unfinishedJobs == 0
               && forall i :: 0 <= i < |children| ==> r[children[i]].unfinishedJobs == 0
  {
    var t := s + LeafJobs(leaves);
    var children := Ids(|s|, |leaves|);
    AppendLeavesWellFormed(s, leaves);
    IdsAreDistinct(|s|, |leaves|);
    ResetTreeThenFinishAll(t, root, children, order);
  }

  /** A parallel-for job: its root job and its leaf jobs in the job arena. */
  class ParallelForJob {
    const pool: JobPool
    var root: JobId
    var children: seq<JobId>

    ghost predicate Valid()
      reads this, pool
    {
      && pool.Valid()
      && root < |pool.jobs|
      && |children| >= 1
      && (forall i :: 0 <= i < |children| ==> root < children[i] < |pool.jobs|)
      && (forall i, j :: 0 <= i < j < |children| ==> children[i] < children[j])
    }

    /** The constructor of `ParallelForJobImpl`: a root with an empty body, then the leaves. */
    constructor (p: JobPool, begin: u32, end: u32, chunkSize: u32)
      requires p.Valid() && (chunkSize > 0 || begin == end)
      modifies p
      ensures Valid() && pool == p
      ensures root == |old(p.jobs)|
      ensures p.jobs == old(p.jobs) + [JobRecord(None, 0, NoOp)] + LeafJobs(SubRanges(begin, end, chunkSize))
      ensures children == Ids(root + 1, |SubRanges(begin, end, chunkSize)|)
    {
      var r := p.Allocate(NoOp);
      var leaves := CreateParallelForSubJobs(p, begin, end, chunkSize);
      pool := p;
      root := r;
      children := leaves;
    }

    /** `ResetJobs`: the root is reset, then every leaf is reset with the root as its parent. */
    method ResetJobs()
      requires Valid()
      modifies pool
      ensures Valid()
      ensures pool.jobs == ResetTree(old(pool.jobs), root, children)
    {
      pool.Reset(root);
      for i := 0 to |children|
        invariant pool.Valid() && |pool.jobs| == |old(pool.jobs)|
        invariant pool.jobs == AttachChildren(ResetState(old(pool.jobs), root), root, children, i)
      {
        pool.ResetWithParent(children[i], root);
      }
    }

    /** `Launch`: the root, then every leaf, is pushed onto the scheduler's inactive deque. */
    method Launch(sched: Scheduler)
      requires Valid() && sched.Valid()
      modifies sched.jobQueues[sched.numWorkerThreads], sched.jobQueues[sched.numWorkerThreads].ring
      ensures sched.Valid()
      ensures var n := sched.numWorkerThreads;
              sched.States() == old(sched.States())[n := PushAll(old(sched.States())[n], [root] + children)]
    {
      ghost var before := sched.States();
      var n := sched.numWorkerThreads;
      var jobs := [root] + children;
      sched.Launch(root);
      assert jobs[..1] == [root];
      for i := 0 to |children|
        invariant sched.Valid()
        invariant sched.States() == before[n := PushAll(before[n], jobs[..i + 1])]
      {
        assert jobs[..i + 2][..i + 1] == jobs[..i + 1];
        sched.Launch(children[i]);
      }
      assert jobs[..|children| + 1] == jobs;
    }

    /** `SetRange`: new leaves for `[begin, end)` replace the old ones; the root stays. */
    method SetRange(begin: u32, end: u32, chunkSize: u32)
      requires Valid() && (chunkSize > 0 || begin == end)
      modifies this, pool
      ensures Valid() && root == old(root)
      ensures pool.jobs == old(pool.jobs) + LeafJobs(SubRanges(begin, end, chunkSize))
      ensures children == Ids(|old(pool.jobs)|, |SubRanges(begin, end, chunkSize)|)
    {
      children := CreateParallelForSubJobs(pool, begin, end, chunkSize);
    }

    /** `operator()`: reset the tree, then launch it. */
    method Run(sched: Scheduler)
      requires Valid() && sched.Valid()
      modifies pool, sched.jobQueues[sched.numWorkerThreads], sched.jobQueues[sched.numWorkerThreads].ring
      ensures Valid() && sched.Valid()
      ensures pool.jobs == ResetTree(old(pool.jobs), root, children)
      ensures var n := sched.numWorkerThreads;
              sched.States() == old(sched.States())[n := PushAll(old(sched.States())[n], [root] + children)]
    {
      ghost var queues := sched.States();
      ResetJobs();
      assert sched.States() == queues;
      ghost var jobs := pool.jobs;
      Launch(sched);
      assert pool.jobs == jobs;
    }
  }
}
