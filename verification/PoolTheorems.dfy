/** What holds of the pool in every state any run can reach. */
module PoolTheorems {
  import opened Collections
  import opened PoolRegions
  import opened PoolEviction
  import opened PoolProtocol
  import opened PoolOwnership

  lemma {:induction false} DistinctOnce(es: seq<nat>, e: nat)
    requires forall i, j :: 0 <= i < j < |es| ==> es[i] != es[j]
    ensures multiset(es)[e] <= 1
  {
    if es != [] {
      assert es == [es[0]] + es[1..];
      DistinctOnce(es[1..], e);
      if es[0] == e {
        assert e !in es[1..];
      }
    }
  }

  lemma InitialInv(opt: PoolOptions, s: Sys)
    requires Initial(opt, s)
    ensures Inv(opt, s)
  {
    SumIsZero(s.threads, Validators);
    SumIsZero(s.threads, Releasers);
    SumIsZero(s.threads, Creators);
    forall e: nat ensures Places(s, e) == multiset(s.pool.entries)[e] <= 1 {
      NobodyHolds(s.threads, e);
      DistinctOnce(s.pool.entries, e);
    }
  }

  lemma {:induction false} NobodyHolds(threads: seq<Pc>, e: nat)
    requires forall t :: 0 <= t < |threads| ==> threads[t].Idle?
    ensures InThreads(threads, e) == 0
  {
    if threads != [] {
      NobodyHolds(threads[1..], e);
    }
  }

  lemma {:induction false} InvAfter(opt: PoolOptions, s: Sys, n: nat)
    requires ReachableIn(opt, s, n)
    ensures Inv(opt, s)
    decreases n
  {
    if n == 0 {
      InitialInv(opt, s);
    } else {
      var before, step :| Follows(opt, before, step, s, n);
      InvAfter(opt, before, n - 1);
      StepKeepsInv(opt, before, step);
    }
  }

  lemma ReachableInv(opt: PoolOptions, s: Sys)
    requires Reachable(opt, s)
    ensures Inv(opt, s)
  {
    var n: nat :| ReachableIn(opt, s, n);
    InvAfter(opt, s, n);
  }

  /** Whenever the mutex is free the counters agree with the lists and with who is doing what. */
  lemma Conservation(opt: PoolOptions, s: Sys)
    requires Reachable(opt, s)
    ensures |s.pool.entries| == |s.pool.available| + s.pool.inUse
    ensures |s.pool.entries| + s.pool.pending <= opt.maxSize
    ensures s.pool.inUse == Sum(s.leases, Valid) + Sum(s.threads, Validators) + Sum(s.threads, Releasers)
    ensures s.pool.pending == Sum(s.threads, Creators)
  {
    ReachableInv(opt, s);
  }

  lemma {:induction false} LeaseCounted(leases: seq<Option<nat>>, l: nat)
    requires l < |leases| && leases[l].Some?
    ensures InLeases(leases, leases[l].value) >= 1
    ensures forall m :: l < m < |leases| && leases[m] == leases[l] ==> InLeases(leases, leases[l].value) >= 2
  {
    if l > 0 {
      LeaseCounted(leases[1..], l - 1);
      forall m | l < m < |leases| && leases[m] == leases[l] ensures InLeases(leases, leases[l].value) >= 2 {
        assert leases[1..][m - 1] == leases[1..][l - 1];
      }
    } else {
      forall m | 0 < m < |leases| && leases[m] == leases[0] ensures InLeases(leases, leases[0].value) >= 2 {
        LeaseCounted(leases[1..], m - 1);
      }
    }
  }

  /** An entry is live exactly while it is in one place; no two places ever share one. */
  lemma ExclusiveOwnership(opt: PoolOptions, s: Sys)
    requires Reachable(opt, s)
    ensures forall e: nat :: Places(s, e) == (if e in s.pool.entries then 1 else 0)
    ensures forall l, m :: 0 <= l < m < |s.leases| && s.leases[l].Some? ==> s.leases[l] != s.leases[m]
    ensures forall l :: 0 <= l < |s.leases| && s.leases[l].Some? ==>
              s.leases[l].value in s.pool.entries && s.leases[l].value !in s.pool.available
  {
    ReachableInv(opt, s);
    forall e: nat ensures Places(s, e) == (if e in s.pool.entries then 1 else 0) {
      assert Places(s, e) == multiset(s.pool.entries)[e];
      assert e in s.pool.entries <==> e in multiset(s.pool.entries);
    }
    forall l | 0 <= l < |s.leases| && s.leases[l].Some?
      ensures s.leases[l].value in s.pool.entries && s.leases[l].value !in s.pool.available
      ensures forall m :: l < m < |s.leases| ==> s.leases[l] != s.leases[m]
    {
      LeaseCounted(s.leases, l);
      var e := s.leases[l].value;
      assert Places(s, e) == (if e in s.pool.entries then 1 else 0);
      assert e in s.pool.available ==> e in multiset(s.pool.available);
    }
  }

  /** No lease is held and no thread is in the middle of anything. */
  ghost predicate AtRest(s: Sys) {
    && (forall l :: 0 <= l < |s.leases| ==> s.leases[l].None?)
    && (forall t :: 0 <= t < |s.threads| ==> s.threads[t].Idle?)
  }

  /** Moves, move assignments, releases and destructions never lose or repeat a release. */
  lemma EveryAcquireReleasedOnce(opt: PoolOptions, s: Sys)
    requires Reachable(opt, s)
    ensures s.granted == s.returned + Sum(s.leases, Valid) + Sum(s.threads, Releasers)
    ensures AtRest(s) ==> s.granted == s.returned && s.pool.inUse == 0
  {
    ReachableInv(opt, s);
    if AtRest(s) {
      SumIsZero(s.leases, Valid);
      SumIsZero(s.threads, Releasers);
      SumIsZero(s.threads, Validators);
    }
  }

  /** In every reachable state an eviction without a lifetime limit cuts off exactly the oldest idle entries. */
  lemma EvictionCutsOldest(opt: PoolOptions, s: Sys)
    requires Reachable(opt, s) && opt.maxLifetime.None?
    ensures Sorted(s.pool.available, s.stamps)
    ensures var k := Min(CountIdle(opt, s.now, s.pool.available, s.stamps), Max(0, |s.pool.entries| - opt.minSize));
            var (p, gone) := Evict(opt, s.now, s.stamps, s.pool);
            0 <= k <= |s.pool.available| && p.available == s.pool.available[k..] && gone == s.pool.available[..k]
  {
    ReachableInv(opt, s);
    EvictsIdlePrefix(opt, s.now, s.stamps, s.pool.available, |s.pool.entries|);
  }

  // ---------------------------------------------------------------- close

  /** What a closed pool's idle queue may become. */
  ghost predicate Shrinks(p: Pool<nat>, p': Pool<nat>) {
    (p.closed ==> p'.closed) && (p.closed ==> Subsequence(p'.available, p.available))
  }

  lemma TailShrinks(queue: seq<nat>)
    ensures Subsequence(queue, queue)
    ensures queue != [] ==> Subsequence(queue[1..], queue)
  {
    WholeSubsequence(queue);
    if queue != [] {
      WholeSubsequence(queue[1..]);
    }
  }

  lemma SearchShrinks(opt: PoolOptions, s: Sys, t: nat)
    requires Enabled(s, Search(t))
    ensures Shrinks(s.pool, DoSearch(opt, s, t).pool)
  {
    TailShrinks(s.pool.available);
    ScanKeepsOrder(opt, s.now, s.stamps, s.pool.available, |s.pool.entries|);
  }

  /** Once closed, the pool stays closed and its idle queue never grows. */
  lemma ClosedQueueNeverGrows(opt: PoolOptions, s: Sys, step: Step)
    requires Enabled(s, step) && s.pool.closed
    ensures Apply(opt, s, step).pool.closed
    ensures Subsequence(Apply(opt, s, step).pool.available, s.pool.available)
  {
    TailShrinks(s.pool.available);
    if step.Search? {
      SearchShrinks(opt, s, step.t);
    }
  }

  lemma {:induction false} SubsequenceSize<E>(xs: seq<E>, ys: seq<E>)
    requires Subsequence(xs, ys)
    ensures |xs| <= |ys|
  {
    if xs != [] {
      if xs[0] == ys[0] && Subsequence(xs[1..], ys[1..]) {
        SubsequenceSize(xs[1..], ys[1..]);
      } else {
        SubsequenceSize(xs, ys[1..]);
      }
    }
  }

  /** `s'` is reached from `s` by the steps of `run`, in order. */
  ghost predicate Runs(opt: PoolOptions, s: Sys, run: seq<Step>, s': Sys)
    decreases |run|
  {
    if run == [] then s == s'
    else Enabled(s, run[0]) && Runs(opt, Apply(opt, s, run[0]), run[1..], s')
  }

  /** Turns of drain loops in `run` that took an entry and went round again. */
  ghost function DrainTurns(opt: PoolOptions, s: Sys, run: seq<Step>): nat
    decreases |run|
  {
    if run == [] || !Enabled(s, run[0]) then 0
    else
      (if run[0].Close? && s.pool.available != [] then 1 else 0)
      + DrainTurns(opt, Apply(opt, s, run[0]), run[1..])
  }

  /** However threads interleave after a close, all drain loops together turn at most once per idle entry. */
  lemma {:induction false} DrainTerminates(opt: PoolOptions, s: Sys, run: seq<Step>, s': Sys)
    requires s.pool.closed && Runs(opt, s, run, s')
    ensures s'.pool.closed
    ensures DrainTurns(opt, s, run) + |s'.pool.available| <= |s.pool.available|
    decreases |run|
  {
    if run != [] {
      var next := Apply(opt, s, run[0]);
      ClosedQueueNeverGrows(opt, s, run[0]);
      SubsequenceSize(next.pool.available, s.pool.available);
      DrainTerminates(opt, next, run[1..], s');
    }
  }

  /** Every thread inside a drain loop has closed the pool, and so has every close() that returned. */
  ghost predicate Closing(s: Sys) {
    && (s.drained ==> s.pool.closed && s.pool.available == [])
    && (forall t :: 0 <= t < |s.threads| && s.threads[t].Draining? ==> s.pool.closed)
  }

  /** No close() returns and no drain loop begins. */
  ghost predicate NoNewDrain(s: Sys, s': Sys) {
    && s'.drained == s.drained && |s'.threads| == |s.threads|
    && (forall t :: 0 <= t < |s.threads| && s'.threads[t].Draining? ==> s.threads[t].Draining?)
  }

  lemma SearchNoNewDrain(opt: PoolOptions, s: Sys, t: nat)
    requires Enabled(s, Search(t))
    ensures NoNewDrain(s, DoSearch(opt, s, t))
  {
  }

  lemma OtherNoNewDrain(opt: PoolOptions, s: Sys, step: Step)
    requires Enabled(s, step) && !step.Close?
    ensures NoNewDrain(s, Apply(opt, s, step))
  {
    match step
    case Search(t) => SearchNoNewDrain(opt, s, t);
    case _ =>
  }

  lemma StepStaysClosing(opt: PoolOptions, s: Sys, step: Step)
    requires Enabled(s, step) && Closing(s)
    ensures Closing(Apply(opt, s, step))
  {
    if !step.Close? {
      OtherNoNewDrain(opt, s, step);
      if s.pool.closed {
        ClosedQueueNeverGrows(opt, s, step);
        SubsequenceSize(Apply(opt, s, step).pool.available, s.pool.available);
      }
    }
  }

  lemma {:induction false} ClosingAfter(opt: PoolOptions, s: Sys, n: nat)
    requires ReachableIn(opt, s, n)
    ensures Closing(s)
    decreases n
  {
    if n > 0 {
      var before, step :| Follows(opt, before, step, s, n);
      ClosingAfter(opt, before, n - 1);
      StepStaysClosing(opt, before, step);
    }
  }

  /** From the return of a close() on, the idle queue is empty and every entry left is in use. */
  lemma CloseIsFinal(opt: PoolOptions, s: Sys)
    requires Reachable(opt, s) && s.drained
    ensures s.pool.closed && s.pool.available == [] && |s.pool.entries| == s.pool.inUse
  {
    var n: nat :| ReachableIn(opt, s, n);
    ClosingAfter(opt, s, n);
    Conservation(opt, s);
  }
}
