/**
 * Jobs and their completion counters (struct Job of Engine/JobScheduler.h).
 *
 * Jobs live in an arena: a job pointer is an index into `JobPool.jobs`, and a
 * parent link is an optional index. Each record holds the job's parent, its
 * 32-bit `unfinishedJobs` counter and the task its payload describes.
 */
module Jobs {
  import opened Wrappers
  import opened UInt32

  type JobId = nat

  /** What a job's stored callable does when invoked. */
  datatype Task =
    | NoOp                          // the empty lambda of a synthetic root job
    | Leaf(begin: u32, end: u32)    // a parallel-for leaf over [begin, end)
    | Closure(tag: nat)             // a caller-supplied callable, not interpreted

  datatype JobRecord = JobRecord(parent: Option<JobId>, unfinishedJobs: u32, task: Task)

  /** Every parent link points at a job of the arena. */
  predicate WellFormed(s: seq<JobRecord>)
  {
    forall j :: 0 <= j < |s| && s[j].parent.Some? ==> s[j].parent.value < |s|
  }

  /** `Job::Reset()`: no parent, counter 1. */
  function ResetState(s: seq<JobRecord>, j: JobId): (r: seq<JobRecord>)
    requires j < |s|
    ensures |r| == |s|
    ensures r[j].parent == None && r[j].unfinishedJobs == 1 && r[j].task == s[j].task
    ensures forall k :: 0 <= k < |s| && k != j ==> r[k] == s[k]
    ensures WellFormed(s) ==> WellFormed(r)
  {
    s[j := s[j].(parent := None, unfinishedJobs := 1)]
  }

  /**
   * `Job::Reset(Job* parent)`: set the parent link and the counter to 1, then
   * increment the parent's counter. The steps run in this order, so a job made
   * its own parent ends with counter 2.
   */
  function ResetWithParentState(s: seq<JobRecord>, j: JobId, p: JobId): (r: seq<JobRecord>)
    requires j < |s| && p < |s|
    ensures |r| == |s|
    ensures r[j].parent == Some(p) && r[j].task == s[j].task
    ensures j != p ==> r[j].unfinishedJobs == 1
    ensures j != p ==> r[p] == s[p].(unfinishedJobs := Inc32(s[p].unfinishedJobs))
    ensures j == p ==> r[j].unfinishedJobs == 2
    ensures forall k :: 0 <= k < |s| && k != j && k != p ==> r[k] == s[k]
    ensures WellFormed(s) ==> WellFormed(r)
  {
    var s1 := s[j := s[j].(parent := Some(p), unfinishedJobs := 1)];
    s1[p := s1[p].(unfinishedJobs := Inc32(s1[p].unfinishedJobs))]
  }

  /** The number of jobs whose counter is exactly 1: the measure on which `Finish` recursion terminates. */
  function CountOnes(s: seq<JobRecord>): nat
  {
    if s == [] then 0 else (if s[0].unfinishedJobs == 1 then 1 else 0) + CountOnes(s[1..])
  }

  lemma {:induction false} CountOnesUpdate(s: seq<JobRecord>, j: nat, x: JobRecord)
    requires j < |s|
    ensures CountOnes(s[j := x]) + (if s[j].unfinishedJobs == 1 then 1 else 0)
         == CountOnes(s) + (if x.unfinishedJobs == 1 then 1 else 0)
  {
    if j > 0 {
      assert s[j := x][1..] == s[1..][j - 1 := x];
      CountOnesUpdate(s[1..], j - 1, x);
    } else {
      assert s[j := x][1..] == s[1..];
    }
  }

  /**
   * `Job::Finish()`: decrement the counter; when it reaches 0 and a parent is
   * set, finish the parent. The recursion continues only through a job whose
   * counter was 1, so it ends even if parent links form a cycle.
   */
  function FinishState(s: seq<JobRecord>, j: JobId): (r: seq<JobRecord>)
    requires WellFormed(s) && j < |s|
    ensures |r| == |s| && WellFormed(r)
    ensures forall k :: 0 <= k < |s| ==> r[k].parent == s[k].parent && r[k].task == s[k].task
    decreases CountOnes(s)
  {
    var c := Dec32(s[j].unfinishedJobs);
    var s1 := s[j := s[j].(unfinishedJobs := c)];
    if c == 0 && s[j].parent.Some? then
      CountOnesUpdate(s, j, s1[j]);
      FinishState(s1, s[j].parent.value)
    else
      s1
  }

  /** A finish that does not complete the job, or completes a job without a parent, changes only that job's counter. */
  lemma FinishWithoutPropagation(s: seq<JobRecord>, j: JobId)
    requires WellFormed(s) && j < |s|
    requires s[j].unfinishedJobs != 1 || s[j].parent.None?
    ensures FinishState(s, j) == s[j := s[j].(unfinishedJobs := Dec32(s[j].unfinishedJobs))]
  {
  }

  /**
   * A child whose counter reaches 0 decrements its parent exactly once; when
   * that does not complete the parent (or the parent has no parent of its own),
   * nothing else changes.
   */
  lemma ChildCompletionDecrementsParent(s: seq<JobRecord>, j: JobId)
    requires WellFormed(s) && j < |s|
    requires s[j].unfinishedJobs == 1 && s[j].parent.Some? && s[j].parent.value != j
    requires var p := s[j].parent.value; s[p].unfinishedJobs != 1 || s[p].parent.None?
    ensures var p := s[j].parent.value;
            FinishState(s, j)
            == s[j := s[j].(unfinishedJobs := 0)][p := s[p].(unfinishedJobs := Dec32(s[p].unfinishedJobs))]
  {
    var p := s[j].parent.value;
    var s1 := s[j := s[j].(unfinishedJobs := 0)];
    assert FinishState(s, j) == FinishState(s1, p);
    FinishWithoutPropagation(s1, p);
  }

  /** Jobs `c[0]`, `c[1]`, ..., all different, each the parent of the one before it. */
  ghost predicate ParentChain(s: seq<JobRecord>, c: seq<JobId>)
  {
    && |c| >= 1
    && (forall i :: 0 <= i < |c| ==> c[i] < |s|)
    && (forall i :: 0 <= i < |c| - 1 ==> s[c[i]].parent == Some(c[i + 1]))
    && Distinct(c)
  }

  /**
   * Completion propagates along a chain of ancestors: when every job of the
   * chain but the last has counter 1, and the last either does not reach 0 or
   * has no parent, finishing the first job completes every job of the chain
   * but the last, decrements the last once, and changes nothing else.
   */
  lemma {:induction false} FinishPropagatesAlongChain(s: seq<JobRecord>, c: seq<JobId>)
    requires WellFormed(s) && ParentChain(s, c)
    requires forall i :: 0 <= i < |c| - 1 ==> s[c[i]].unfinishedJobs == 1
    requires var last := c[|c| - 1]; s[last].unfinishedJobs != 1 || s[last].parent.None?
    ensures var r := FinishState(s, c[0]);
            var last := c[|c| - 1];
            && (forall i :: 0 <= i < |c| - 1 ==> r[c[i]] == s[c[i]].(unfinishedJobs := 0))
            && r[last] == s[last].(unfinishedJobs := Dec32(s[last].unfinishedJobs))
            && (forall k :: 0 <= k < |s| && k !in c ==> r[k] == s[k])
    decreases |c|
  {
    if |c| == 1 {
      FinishWithoutPropagation(s, c[0]);
    } else {
      var j, c1 := c[0], c[1..];
      var s1 := s[j := s[j].(unfinishedJobs := 0)];
      assert FinishState(s, j) == FinishState(s1, c[1]);
      forall i | 0 <= i < |c1|
        ensures c1[i] == c[i + 1] && c1[i] != j && s1[c1[i]] == s[c1[i]]
      {
        assert c[0] != c[i + 1];
      }
      assert ParentChain(s1, c1);
      FinishPropagatesAlongChain(s1, c1);
      var r := FinishState(s1, c1[0]);
      forall i | 0 <= i < |c| - 1 ensures r[c[i]] == s[c[i]].(unfinishedJobs := 0) {
        if i == 0 {
          assert j !in c1;
        } else {
          assert c[i] == c1[i - 1];
        }
      }
      forall k | 0 <= k < |s| && k !in c ensures r[k] == s[k] {
        assert k !in c1 && k != j;
      }
    }
  }

  /**
   * The counters of a parent and its children after `ResetJobs`: the parent is
   * reset, then the first `n` children are attached with `Reset(parent)`, one
   * after the other, as the loop over `children` does.
   */
  function AttachChildren(s: seq<JobRecord>, root: JobId, children: seq<JobId>, n: nat): (r: seq<JobRecord>)
    requires root < |s| && n <= |children|
    requires forall i :: 0 <= i < |children| ==> children[i] < |s| && children[i] != root
    ensures |r| == |s|
    decreases n
  {
    if n == 0 then s else ResetWithParentState(AttachChildren(s, root, children, n - 1), children[n - 1], root)
  }

  /** Attaching `n` children adds `n` to the parent's counter, modulo 2^32, and keeps the parent's own parent. */
  lemma {:induction false} AttachChildrenCountsChildren(s: seq<JobRecord>, root: JobId, children: seq<JobId>, n: nat)
    requires root < |s| && n <= |children|
    requires forall i :: 0 <= i < |children| ==> children[i] < |s| && children[i] != root
    ensures var r := AttachChildren(s, root, children, n);
            && r[root].parent == s[root].parent
            && r[root].unfinishedJobs == (s[root].unfinishedJobs + n) % U32_LIMIT
    decreases n
  {
    if n == 0 {
      assert (s[root].unfinishedJobs + 0) % U32_LIMIT == s[root].unfinishedJobs;
    } else {
      var t := AttachChildren(s, root, children, n - 1);
      AttachChildrenCountsChildren(s, root, children, n - 1);
      var r := AttachChildren(s, root, children, n);
      assert r[root] == t[root].(unfinishedJobs := Inc32(t[root].unfinishedJobs));
      CountOneMore(s[root].unfinishedJobs, n, t[root].unfinishedJobs, r[root].unfinishedJobs);
    }
  }

  lemma CountOneMore(x: u32, n: nat, before: u32, after: u32)
    requires n >= 1 && before == (x + (n - 1)) % U32_LIMIT && after == Inc32(before)
    ensures after == (x + n) % U32_LIMIT
  {
    IncOfSum(x, n - 1);
  }

  /** Every attached child has the parent as its parent and a counter of one. */
  lemma {:induction false} AttachChildrenLinksChildren(s: seq<JobRecord>, root: JobId, children: seq<JobId>, n: nat)
    requires root < |s| && n <= |children|
    requires forall i :: 0 <= i < |children| ==> children[i] < |s| && children[i] != root
    ensures var r := AttachChildren(s, root, children, n);
            forall i :: 0 <= i < n ==> r[children[i]].parent == Some(root) && r[children[i]].unfinishedJobs == 1
    decreases n
  {
    if n > 0 {
      var t := AttachChildren(s, root, children, n - 1);
      var r := AttachChildren(s, root, children, n);
      AttachChildrenLinksChildren(s, root, children, n - 1);
      forall i | 0 <= i < n
        ensures r[children[i]].parent == Some(root) && r[children[i]].unfinishedJobs == 1
      {
        if children[i] != children[n - 1] {
          assert r[children[i]] == t[children[i]];
        }
      }
    }
  }

  /** Attaching children changes no record but the parent's and the children's, no task, and keeps parents in range. */
  lemma {:induction false} AttachChildrenFrame(s: seq<JobRecord>, root: JobId, children: seq<JobId>, n: nat)
    requires root < |s| && n <= |children|
    requires forall i :: 0 <= i < |children| ==> children[i] < |s| && children[i] != root
    ensures var r := AttachChildren(s, root, children, n);
            && (forall k :: 0 <= k < |s| && k != root && k !in children ==> r[k] == s[k])
            && (forall k :: 0 <= k < |s| ==> r[k].task == s[k].task)
            && (WellFormed(s) ==> WellFormed(r))
    decreases n
  {
    if n > 0 {
      AttachChildrenFrame(s, root, children, n - 1);
    }
  }

  lemma IncOfSum(x: u32, n: nat)
    ensures Inc32((x + n) % U32_LIMIT) == (x + n + 1) % U32_LIMIT
  {
  }

  /** `ParallelForJobImpl::ResetJobs`: reset the root, then attach every child to it. */
  function ResetTree(s: seq<JobRecord>, root: JobId, children: seq<JobId>): (r: seq<JobRecord>)
    requires root < |s|
    requires forall i :: 0 <= i < |children| ==> children[i] < |s| && children[i] != root
    ensures |r| == |s|
    ensures r[root].parent == None && r[root].unfinishedJobs == (1 + |children|) % U32_LIMIT
    ensures forall i :: 0 <= i < |children| ==> r[children[i]].parent == Some(root) && r[children[i]].unfinishedJobs == 1
    ensures forall k :: 0 <= k < |s| && k != root && k !in children ==> r[k] == s[k]
    ensures forall k :: 0 <= k < |s| ==> r[k].task == s[k].task
    ensures WellFormed(s) ==> WellFormed(r)
  {
    AttachChildrenCountsChildren(ResetState(s, root), root, children, |children|);
    AttachChildrenLinksChildren(ResetState(s, root), root, children, |children|);
    AttachChildrenFrame(ResetState(s, root), root, children, |children|);
    AttachChildren(ResetState(s, root), root, children, |children|)
  }

  /** Finish each job of `order` once, first to last. */
  function FinishAll(s: seq<JobRecord>, order: seq<JobId>): (r: seq<JobRecord>)
    requires WellFormed(s)
    requires forall i :: 0 <= i < |order| ==> order[i] < |s|
    ensures |r| == |s| && WellFormed(r)
    ensures forall k :: 0 <= k < |s| ==> r[k].parent == s[k].parent && r[k].task == s[k].task
    decreases |order|
  {
    if order == [] then s else FinishAll(FinishState(s, order[0]), order[1..])
  }

  /** The state of a reset tree while the jobs in `pending` have not yet finished. */
  ghost predicate TreePending(t: seq<JobRecord>, root: JobId, children: seq<JobId>, pending: multiset<JobId>)
  {
    && root < |t|
    && t[root].parent == None
    && t[root].unfinishedJobs == |pending|
    && pending <= multiset([root] + children)
    && (forall i :: 0 <= i < |children| ==>
          && children[i] < |t|
          && t[children[i]].parent == Some(root)
          && t[children[i]].unfinishedJobs == (if children[i] in pending then 1 else 0))
  }

  ghost predicate Distinct(xs: seq<JobId>)
  {
    forall i, j :: 0 <= i < j < |xs| ==> xs[i] != xs[j]
  }

  lemma {:induction false} DistinctMultiplicity(xs: seq<JobId>, x: JobId)
    requires Distinct(xs)
    ensures multiset(xs)[x] <= 1
  {
    if xs != [] {
      assert xs == [xs[0]] + xs[1..];
      assert Distinct(xs[1..]) by {
        forall i, j | 0 <= i < j < |xs[1..]| ensures xs[1..][i] != xs[1..][j] {
          assert xs[1..][i] == xs[i + 1] && xs[1..][j] == xs[j + 1];
        }
      }
      DistinctMultiplicity(xs[1..], x);
      if xs[0] == x {
        assert x !in xs[1..] by {
          forall i | 0 <= i < |xs[1..]| ensures xs[1..][i] != x {
            assert xs[1..][i] == xs[i + 1];
          }
        }
      }
    }
  }

  lemma ChildrenAreNotRoot(root: JobId, children: seq<JobId>)
    requires Distinct([root] + children)
    ensures forall i :: 0 <= i < |children| ==> children[i] != root
  {
    forall i | 0 <= i < |children| ensures children[i] != root {
      assert ([root] + children)[0] == root && ([root] + children)[i + 1] == children[i];
    }
  }

  /** The bookkeeping of `TreePending` after job `x` has been taken out of `pending` and its counters updated. */
  lemma TreePendingAfter(t: seq<JobRecord>, root: JobId, children: seq<JobId>, pending: multiset<JobId>,
                         x: JobId, r: seq<JobRecord>)
    requires TreePending(t, root, children, pending)
    requires Distinct([root] + children)
    requires x in pending
    requires |r| == |t| && r[root] == t[root].(unfinishedJobs := |pending| - 1)
    requires x != root ==> x < |t| && r[x].parent == t[x].parent && r[x].unfinishedJobs == 0
    requires forall k :: 0 <= k < |t| && k != root && k != x ==> r[k] == t[k]
    ensures TreePending(r, root, children, pending - multiset{x})
  {
    var rest := pending - multiset{x};
    ChildrenAreNotRoot(root, children);
    DistinctMultiplicity([root] + children, x);
    assert pending[x] == 1;
    forall i | 0 <= i < |children|
      ensures r[children[i]].parent == Some(root)
      ensures r[children[i]].unfinishedJobs == (if children[i] in rest then 1 else 0)
    {
      if children[i] == x {
        assert x !in rest;
      } else {
        assert children[i] in rest <==> children[i] in pending;
      }
    }
  }

  /** Finishing one pending job of the tree keeps the tree's bookkeeping exact. */
  lemma FinishPendingStep(t: seq<JobRecord>, root: JobId, children: seq<JobId>, pending: multiset<JobId>, x: JobId)
    requires WellFormed(t) && TreePending(t, root, children, pending)
    requires Distinct([root] + children)
    requires x in pending
    ensures x < |t|
    ensures TreePending(FinishState(t, x), root, children, pending - multiset{x})
  {
    assert x in [root] + children;
    assert x < |t|;
    var r := FinishState(t, x);
    if x == root {
      FinishWithoutPropagation(t, root);
      TreePendingAfter(t, root, children, pending, x, r);
    } else {
      assert x in children;
      ChildCompletionDecrementsParent(t, x);
      TreePendingAfter(t, root, children, pending, x, r);
    }
  }

  lemma PendingInRange(t: seq<JobRecord>, root: JobId, children: seq<JobId>, pending: multiset<JobId>, x: JobId)
    requires TreePending(t, root, children, pending)
    requires x in pending
    ensures x < |t|
  {
    assert x in multiset([root] + children);
    assert x in [root] + children;
  }

  lemma {:induction false} FinishPendingAll(t: seq<JobRecord>, root: JobId, children: seq<JobId>, order: seq<JobId>)
    requires WellFormed(t) && TreePending(t, root, children, multiset(order))
    requires Distinct([root] + children)
    ensures forall i :: 0 <= i < |order| ==> order[i] < |t|
    ensures TreePending(FinishAll(t, order), root, children, multiset{})
    decreases |order|
  {
    forall i | 0 <= i < |order| ensures order[i] < |t| {
      assert order[i] in multiset(order);
      PendingInRange(t, root, children, multiset(order), order[i]);
    }
    if order != [] {
      var x, rest := order[0], order[1..];
      assert order == [x] + rest;
      assert multiset(order) - multiset{x} == multiset(rest);
      FinishPendingStep(t, root, children, multiset(order), x);
      var t1 := FinishState(t, x);
      FinishPendingAll(t1, root, children, rest);
      assert FinishAll(t, order) == FinishAll(t1, rest);
    }
  }

  lemma DistinctCons(root: JobId, children: seq<JobId>)
    requires root !in children && Distinct(children)
    ensures Distinct([root] + children)
  {
    var xs := [root] + children;
    forall i, j | 0 <= i < j < |xs| ensures xs[i] != xs[j] {
      assert xs[j] == children[j - 1];
      if i > 0 {
        assert xs[i] == children[i - 1];
      }
    }
  }

  /** Right after `ResetJobs`, the root and every child are pending. */
  lemma ResetTreeIsPending(s: seq<JobRecord>, root: JobId, children: seq<JobId>)
    requires root < |s| && root !in children
    requires forall i :: 0 <= i < |children| ==> children[i] < |s|
    requires |children| + 1 < U32_LIMIT
    ensures TreePending(ResetTree(s, root, children), root, children, multiset([root] + children))
  {
    var t := ResetTree(s, root, children);
    var all := multiset([root] + children);
    assert |all| == 1 + |children|;
    forall i | 0 <= i < |children| ensures children[i] in all {
      assert ([root] + children)[i + 1] == children[i];
    }
  }

  /**
   * After `ResetJobs` on a root and n distinct children, finishing the root and
   * every child exactly once, in any order, leaves every one of their counters
   * at 0.
   */
  lemma ResetTreeThenFinishAll(s: seq<JobRecord>, root: JobId, children: seq<JobId>, order: seq<JobId>)
    requires WellFormed(s) && root < |s|
    requires forall i :: 0 <= i < |children| ==> children[i] < |s|
    requires root !in children && Distinct(children)
    requires |children| + 1 < U32_LIMIT
    requires multiset(order) == multiset([root] + children)
    ensures forall i :: 0 <= i < |order| ==> order[i] < |s|
    ensures var r := FinishAll(ResetTree(s, root, children), order);
            && r[root].unfinishedJobs == 0
            && forall i :: 0 <= i < |children| ==> r[children[i]].unfinishedJobs == 0
  {
    DistinctCons(root, children);
    ResetTreeIsPending(s, root, children);
    FinishPendingAll(ResetTree(s, root, children), root, children, order);
  }

  /** The children of `j` whose counter has not reached 0. */
  ghost function PendingChildren(s: seq<JobRecord>, j: JobId): set<JobId>
  {
    set c | 0 <= c < |s| && s[c].parent == Some(j) && s[c].unfinishedJobs > 0
  }

  /**
   * The discipline the counters follow: every job counts 1 for itself until it
   * has finished (the jobs of `live` have not) and 1 for each child that has
   * not completed.
   */
  ghost predicate Balanced(s: seq<JobRecord>, live: set<JobId>)
  {
    && (forall j :: j in live ==> j < |s|)
    && forall j :: 0 <= j < |s| ==> s[j].unfinishedJobs == (if j in live then 1 else 0) + |PendingChildren(s, j)|
  }

  /** `Balanced` everywhere except at `x`, whose counter is one too high: the state between two levels of `Finish`. */
  ghost predicate BalancedBut(s: seq<JobRecord>, live: set<JobId>, x: JobId)
  {
    && x < |s|
    && (forall j :: j in live ==> j < |s|)
    && s[x].unfinishedJobs == (if x in live then 1 else 0) + |PendingChildren(s, x)| + 1
    && forall j :: 0 <= j < |s| && j != x ==> s[j].unfinishedJobs == (if j in live then 1 else 0) + |PendingChildren(s, j)|
  }

  /** Changing one counter moves that job in or out of its parent's pending children, and nowhere else. */
  lemma PendingChildrenAfter(s: seq<JobRecord>, x: JobId, v: u32, j: JobId)
    requires x < |s|
    ensures var s1 := s[x := s[x].(unfinishedJobs := v)];
            && (s[x].parent != Some(j) ==> PendingChildren(s1, j) == PendingChildren(s, j))
            && (s[x].parent == Some(j) && v > 0 ==> PendingChildren(s1, j) == PendingChildren(s, j) + {x})
            && (s[x].parent == Some(j) && v == 0 ==> PendingChildren(s1, j) == PendingChildren(s, j) - {x})
  {
  }

  /** Decrementing the counter that is one too high restores balance when the job stays pending or has no parent. */
  lemma DecrementRestoresBalance(s: seq<JobRecord>, live: set<JobId>, x: JobId)
    requires BalancedBut(s, live, x)
    requires s[x].unfinishedJobs > 1 || s[x].parent.None?
    ensures Balanced(s[x := s[x].(unfinishedJobs := s[x].unfinishedJobs - 1)], live)
  {
    var c := s[x].unfinishedJobs - 1;
    var s1 := s[x := s[x].(unfinishedJobs := c)];
    forall j | 0 <= j < |s| ensures PendingChildren(s1, j) == PendingChildren(s, j) {
      PendingChildrenAfter(s, x, c, j);
    }
  }

  /** Decrementing the counter that is one too high to 0 passes the excess on to the parent. */
  lemma DecrementPassesExcess(s: seq<JobRecord>, live: set<JobId>, x: JobId)
    requires WellFormed(s) && BalancedBut(s, live, x)
    requires s[x].unfinishedJobs == 1 && s[x].parent.Some?
    ensures s[x].parent.value != x
    ensures BalancedBut(s[x := s[x].(unfinishedJobs := 0)], live, s[x].parent.value)
  {
    var p := s[x].parent.value;
    var s1 := s[x := s[x].(unfinishedJobs := 0)];
    forall j | 0 <= j < |s| && j != p ensures PendingChildren(s1, j) == PendingChildren(s, j) {
      PendingChildrenAfter(s, x, 0, j);
    }
    PendingChildrenAfter(s, x, 0, p);
    assert x in PendingChildren(s, p);
    assert |PendingChildren(s1, p)| == |PendingChildren(s, p)| - 1;
  }

  /** The rest of a `Finish` that starts with one counter too high leaves the arena balanced. */
  lemma FinishRestoresBalance(s: seq<JobRecord>, live: set<JobId>, x: JobId)
    requires WellFormed(s) && BalancedBut(s, live, x)
    ensures Balanced(FinishState(s, x), live)
    decreases CountOnes(s)
  {
    var c := s[x].unfinishedJobs - 1;
    assert Dec32(s[x].unfinishedJobs) == c;
    var s1 := s[x := s[x].(unfinishedJobs := c)];
    if c > 0 || s[x].parent.None? {
      DecrementRestoresBalance(s, live, x);
      assert FinishState(s, x) == s1;
    } else {
      var p := s[x].parent.value;
      DecrementPassesExcess(s, live, x);
      CountOnesUpdate(s, x, s1[x]);
      assert FinishState(s, x) == FinishState(s1, p);
      FinishRestoresBalance(s1, live, p);
    }
  }

  /** Finishing a job that has not finished yet keeps the counters balanced, with that job no longer live. */
  lemma FinishKeepsBalanced(s: seq<JobRecord>, live: set<JobId>, x: JobId)
    requires WellFormed(s) && Balanced(s, live) && x in live
    ensures Balanced(FinishState(s, x), live - {x})
  {
    FinishRestoresBalance(s, live - {x}, x);
  }

  /** Finishing live jobs once each, in any order, keeps the counters balanced. */
  lemma {:induction false} FinishAllKeepsBalanced(s: seq<JobRecord>, live: set<JobId>, order: seq<JobId>)
    requires WellFormed(s) && Balanced(s, live)
    requires Distinct(order) && forall i :: 0 <= i < |order| ==> order[i] in live
    ensures forall i :: 0 <= i < |order| ==> order[i] < |s|
    ensures Balanced(FinishAll(s, order), live - Members(order))
    decreases |order|
  {
    if order != [] {
      var x, rest := order[0], order[1..];
      FinishKeepsBalanced(s, live, x);
      DistinctTail(order);
      FinishAllKeepsBalanced(FinishState(s, x), live - {x}, rest);
      MembersCons(order);
    }
  }

  lemma DistinctTail(xs: seq<JobId>)
    requires Distinct(xs) && xs != []
    ensures Distinct(xs[1..])
    ensures forall i :: 0 <= i < |xs| - 1 ==> xs[1..][i] == xs[i + 1] && xs[i + 1] != xs[0]
  {
  }

  lemma MembersCons(xs: seq<JobId>)
    requires xs != []
    ensures Members(xs) == {xs[0]} + Members(xs[1..])
  {
    assert xs == [xs[0]] + xs[1..];
  }

  /** `Ancestor` depends only on the parent links. */
  lemma {:induction false} AncestorSameParents(s: seq<JobRecord>, t: seq<JobRecord>, d: JobId, n: nat)
    requires WellFormed(s) && WellFormed(t) && |s| == |t| && d < |s|
    requires forall k :: 0 <= k < |s| ==> s[k].parent == t[k].parent
    ensures Ancestor(s, d, n) == Ancestor(t, d, n)
    decreases n
  {
    if n > 0 && s[d].parent.Some? {
      AncestorSameParents(s, t, s[d].parent.value, n - 1);
    }
  }

  /** A freshly allocated record, with no parent and counter 0, keeps the arena balanced. */
  lemma AllocateKeepsBalanced(s: seq<JobRecord>, live: set<JobId>, task: Task)
    requires WellFormed(s) && Balanced(s, live)
    ensures Balanced(s + [JobRecord(None, 0, task)], live)
  {
    var t := s + [JobRecord(None, 0, task)];
    forall j | 0 <= j < |t| ensures PendingChildren(t, j) == PendingChildren(s, j) {
      assert forall c :: c in PendingChildren(t, j) ==> c < |s| && t[c] == s[c];
    }
  }

  /** `Reset()` on a job whose counter is 0 makes it live, still balanced. */
  lemma ResetKeepsBalanced(s: seq<JobRecord>, live: set<JobId>, j: JobId)
    requires Balanced(s, live) && j < |s| && s[j].unfinishedJobs == 0
    ensures Balanced(ResetState(s, j), live + {j})
  {
    var t := ResetState(s, j);
    forall k | 0 <= k < |t| ensures PendingChildren(t, k) == PendingChildren(s, k) {
      assert forall c :: 0 <= c < |s| && c != j ==> t[c] == s[c];
    }
  }

  /** The jobs listed in `xs`. */
  ghost function Members(xs: seq<JobId>): set<JobId>
  {
    set i | 0 <= i < |xs| :: xs[i]
  }

  /** The `n`-th ancestor of `d`, following parent links; `None` when the links end sooner. */
  function Ancestor(s: seq<JobRecord>, d: JobId, n: nat): (a: Option<JobId>)
    requires WellFormed(s) && d < |s|
    ensures a.Some? ==> a.value < |s|
    ensures n == 0 ==> a == Some(d)
    decreases n
  {
    if n == 0 then Some(d)
    else match s[d].parent
      case None => None
      case Some(p) => Ancestor(s, p, n - 1)
  }

  /**
   * In a balanced arena, a job whose counter is 0 has completed its whole
   * subtree: every descendant has finished and has counter 0. So `Wait` on a
   * root returns only once all its descendants are done.
   */
  lemma {:induction false} CompletedJobCompletesDescendants(s: seq<JobRecord>, live: set<JobId>, root: JobId, d: JobId, n: nat)
    requires WellFormed(s) && Balanced(s, live) && d < |s|
    requires Ancestor(s, d, n) == Some(root) && s[root].unfinishedJobs == 0
    ensures s[d].unfinishedJobs == 0 && d !in live
    decreases n
  {
    if n > 0 {
      var p := s[d].parent.value;
      CompletedJobCompletesDescendants(s, live, root, p, n - 1);
      assert PendingChildren(s, p) == {};
      assert d !in PendingChildren(s, p);
    }
  }

  /**
   * The arena of jobs. The methods mirror the member functions of `Job`, each
   * acting on the job at index `j`.
   */
  class JobPool {
    var jobs: seq<JobRecord>

    ghost predicate Valid()
      reads this
    {
      WellFormed(jobs)
    }

    constructor ()
      ensures Valid() && jobs == []
    {
      jobs := [];
    }

    /** A fresh job slot holding `task`, as `CreateJobData` returns it: not yet reset. */
    method Allocate(task: Task) returns (j: JobId)
      requires Valid()
      modifies this
      ensures Valid()
      ensures j == |old(jobs)| && jobs == old(jobs) + [JobRecord(None, 0, task)]
    {
      j := |jobs|;
      jobs := jobs + [JobRecord(None, 0, task)];
    }

    /** `Job::Reset()`. */
    method Reset(j: JobId)
      requires Valid() && j < |jobs|
      modifies this
      ensures Valid() && jobs == ResetState(old(jobs), j)
    {
      jobs := jobs[j := jobs[j].(parent := None)];
      jobs := jobs[j := jobs[j].(unfinishedJobs := 1)];
    }

    /** `Job::Reset(Job* parent)`. */
    method ResetWithParent(j: JobId, p: JobId)
      requires Valid() && j < |jobs| && p < |jobs|
      modifies this
      ensures Valid() && jobs == ResetWithParentState(old(jobs), j, p)
    {
      jobs := jobs[j := jobs[j].(parent := Some(p))];
      jobs := jobs[j := jobs[j].(unfinishedJobs := 1)];
      jobs := jobs[p := jobs[p].(unfinishedJobs := Inc32(jobs[p].unfinishedJobs))];
    }

    /** `Job::Finish()`. */
    method Finish(j: JobId)
      requires Valid() && j < |jobs|
      modifies this
      ensures Valid() && jobs == FinishState(old(jobs), j)
      decreases CountOnes(jobs)
    {
      var unfinished := Dec32(jobs[j].unfinishedJobs);
      var before := jobs;
      jobs := jobs[j := jobs[j].(unfinishedJobs := unfinished)];
      if unfinished == 0 && jobs[j].parent.Some? {
        CountOnesUpdate(before, j, jobs[j]);
        Finish(jobs[j].parent.value);
      }
    }
  }
}
