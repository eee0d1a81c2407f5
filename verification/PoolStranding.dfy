/** How a sleeper can be left beside an idle connection with nobody to act. */
module PoolStranding {
  import opened Collections
  import opened PoolRegions
  import opened PoolProtocol
  import opened PoolOwnership
  import opened PoolTheorems
  import opened PoolWakeup

  ghost predicate Resting(s: Sys) {
    forall t :: 0 <= t < |s.threads| ==> s.threads[t].Idle? || s.threads[t].Sleeping?
  }

  /** The pool is open and has an idle connection and spare capacity, somebody sleeps, and no thread is left to act. */
  ghost predicate Stranded(opt: PoolOptions, s: Sys) {
    Resting(s) && SomeSleeper(s) && s.pool.available != [] && Spare(opt, s) > 0 && !s.pool.closed
  }

  // ---------------------------------------------------------------- one late timeout is enough

  lemma StepReachable(opt: PoolOptions, s: Sys, step: Step)
    requires Reachable(opt, s) && Enabled(s, step)
    ensures Reachable(opt, Apply(opt, s, step))
  {
    var n: nat :| ReachableIn(opt, s, n);
    assert Follows(opt, s, step, Apply(opt, s, step), n + 1);
    assert ReachableIn(opt, Apply(opt, s, step), n + 1);
  }

  /** Thread `t` has put back the entry of lease `l` but not notified yet. */
  ghost function ReturnedBy(s: Sys, t: nat, l: nat): Sys
    requires t < |s.threads| && l < |s.leases| && s.leases[l].Some?
  {
    var e := s.leases[l].value;
    At(s.(pool := PutBack(s.pool, e, true), stamps := Restamp(s.pool, s.stamps, e, true, s.now),
          leases := s.leases[l := None], returned := s.returned + 1), t, Notifying(Nothing))
  }

  /** The state a returned lease, a notification and a late timeout lead to. */
  ghost function TimedOutLate(s: Sys, t: nat, l: nat, first: nat): Sys
    requires t < |s.threads| && l < |s.leases| && s.leases[l].Some? && first < |s.threads|
  {
    ReturnedBy(s, t, l).(threads := s.threads[first := Idle], late := s.late + 1)
  }

  lemma ReturnedReachable(opt: PoolOptions, s: Sys, t: nat, l: nat)
    requires Reachable(opt, s) && Resting(s)
    requires t < |s.threads| && s.threads[t].Idle? && l < |s.leases| && s.leases[l].Some?
    ensures Reachable(opt, ReturnedBy(s, t, l))
  {
    assert !Busy(s, l);
    StepReachable(opt, s, UseLease(Drop(t, l)));
    var s1 := DropInto(s, t, l, Nothing);
    StepReachable(opt, s1, PutBackEntry(t, true));
    assert s1.threads[t := Notifying(Nothing)] == s.threads[t := Notifying(Nothing)];
  }

  lemma LateReachable(opt: PoolOptions, s: Sys, t: nat, l: nat, first: nat)
    requires Reachable(opt, s) && Resting(s)
    requires t < |s.threads| && s.threads[t].Idle? && l < |s.leases| && s.leases[l].Some?
    requires IsSleeper(s, first) && s.threads[first].call.deadline <= s.now
    ensures Reachable(opt, TimedOutLate(s, t, l, first))
  {
    ReturnedReachable(opt, s, t, l);
    var s2 := ReturnedBy(s, t, l);
    StepReachable(opt, s2, Notify(t, Some(first)));
    var woken := Woken(s.threads[first].call, true);
    var s3 := s2.(threads := s.threads[first := woken]);
    assert s2.threads[t := Idle] == s.threads;
    assert DoNotify(s2, t, Some(first)) == s3;
    StepReachable(opt, s3, EndWait(first, true));
    assert s.threads[first := woken][first := Idle] == s.threads[first := Idle];
  }

  /**
    From any full open pool at rest with two sleepers past the first one's deadline, returning one lease and one late
    timeout leave the second asleep beside an idle connection, and everybody else at rest.
   */
  lemma LateTimeoutStrands(opt: PoolOptions, s: Sys, t: nat, l: nat, first: nat, second: nat)
    requires Reachable(opt, s) && Resting(s)
    requires t < |s.threads| && s.threads[t].Idle? && l < |s.leases| && s.leases[l].Some?
    requires first != second && IsSleeper(s, first) && IsSleeper(s, second) && s.threads[first].call.deadline <= s.now
    requires Spare(opt, s) == 0 && !s.pool.closed
    ensures exists s' :: Reachable(opt, s') && Stranded(opt, s') && IsSleeper(s', second)
              && Spare(opt, s') == 1 && s'.pool.available == s.pool.available + [s.leases[l].value]
              && s'.late == s.late + 1
  {
    var s' := TimedOutLate(s, t, l, first);
    LateReachable(opt, s, t, l, first);
    assert IsSleeper(s', second);
  }

  // ---------------------------------------------------------------- any pool can be filled

  /** Open, and every thread between two calls. */
  ghost predicate Quiet(s: Sys, n: nat) {
    !s.pool.closed && |s.threads| == n && forall t :: 0 <= t < n ==> s.threads[t].Idle?
  }

  /** Thread 0 looks at the idle queue, then leases its front or opens a connection, pings and openings succeeding. */
  lemma DecisionLeases(opt: PoolOptions, s: Sys, n: nat, call: Call) returns (s': Sys)
    requires |s.threads| == n > 0 && Quiet(s.(threads := s.threads[0 := Idle]), n)
    requires s.pool.available == [] ==> |s.pool.entries| + s.pool.pending < opt.maxSize
    requires Reachable(opt, DecideStep(opt, s, 0, call))
    ensures Reachable(opt, s') && Quiet(s', n) && s'.pool.inUse == s.pool.inUse + 1
  {
    var d := DecideStep(opt, s, 0, call);
    if s.pool.available != [] && !opt.validateOnAcquire {
      s' := d;
    } else if s.pool.available != [] {
      StepReachable(opt, d, Pinged(0, true));
      s' := Apply(opt, d, Pinged(0, true));
    } else {
      StepReachable(opt, d, Opened(0, true, None));
      s' := Apply(opt, d, Opened(0, true, None));
    }
    assert s'.threads == s.threads[0 := Idle];
  }

  /** In a quiet pool that is not fully leased, thread 0 can lease one more, evicting first what has expired. */
  lemma LeaseOneMore(opt: PoolOptions, s: Sys, n: nat) returns (s': Sys)
    requires Reachable(opt, s) && Quiet(s, n) && n > 0 && s.pool.inUse < opt.maxSize
    ensures Reachable(opt, s') && Quiet(s', n) && s'.pool.inUse == s.pool.inUse + 1
  {
    QuietCounts(opt, s, n);
    var call := Call(s.now + opt.acquireTimeout);
    StepReachable(opt, s, Search(0));
    if Evict(opt, s.now, s.stamps, s.pool).1 == [] {
      assert s.threads[0 := Idle] == s.threads;
      s' := DecisionLeases(opt, s, n, call);
    } else {
      var evicted := At(s.(pool := Evict(opt, s.now, s.stamps, s.pool).0), 0, Evicting(call));
      assert evicted.threads[0 := Idle] == s.threads;
      EvictedCounts(opt, evicted, n, call);
      StepReachable(opt, evicted, Search(0));
      s' := DecisionLeases(opt, evicted, n, call);
    }
  }

  lemma QuietCounts(opt: PoolOptions, s: Sys, n: nat)
    requires Reachable(opt, s) && Quiet(s, n)
    ensures s.pool.pending == 0 && |s.pool.entries| == |s.pool.available| + s.pool.inUse <= opt.maxSize
    ensures s.pool.inUse == Sum(s.leases, Valid)
  {
    Conservation(opt, s);
    SumIsZero(s.threads, Creators);
    SumIsZero(s.threads, Validators);
    SumIsZero(s.threads, Releasers);
  }

  lemma EvictedCounts(opt: PoolOptions, s: Sys, n: nat, call: Call)
    requires Reachable(opt, s) && n > 0 && |s.threads| == n && s.threads[0] == Evicting(call)
    requires Quiet(s.(threads := s.threads[0 := Idle]), n)
    ensures s.pool.pending == 0 && |s.pool.entries| == |s.pool.available| + s.pool.inUse
  {
    Conservation(opt, s);
    forall t | 0 <= t < n ensures Creators(s.threads[t]) == 0 {
      assert t > 0 ==> s.threads[t] == s.threads[0 := Idle][t];
    }
    SumIsZero(s.threads, Creators);
  }

  lemma {:induction false} FillUp(opt: PoolOptions, s: Sys, n: nat) returns (full: Sys)
    requires Reachable(opt, s) && Quiet(s, n) && n > 0 && s.pool.inUse <= opt.maxSize
    ensures Reachable(opt, full) && Quiet(full, n) && full.pool.inUse == opt.maxSize
    decreases opt.maxSize - s.pool.inUse
  {
    if s.pool.inUse == opt.maxSize {
      full := s;
    } else {
      var more := LeaseOneMore(opt, s, n);
      full := FillUp(opt, more, n);
    }
  }

  // ---------------------------------------------------------------- waiting makes it happen

  ghost function Untouched(n: nat): seq<nat> { seq(n, i => i) }

  /** A new pool of handles 0, 1, 2 and so on, with three threads. */
  lemma NewPoolReachable(opt: PoolOptions) returns (s: Sys)
    requires 1 <= opt.maxSize && opt.minSize <= opt.maxSize
    ensures Reachable(opt, s) && Quiet(s, 3) && s.pool.inUse == 0
  {
    var entries := Untouched(opt.minSize);
    var stamps := map e | e in entries :: Stamp(0, 0);
    s := Sys(Pool(entries, entries, 0, 0, false), stamps, [Idle, Idle, Idle], [], 0, opt.minSize, 0, 0, 0, false);
    assert ReachableIn(opt, s, 0);
  }

  /** A newcomer to a full pool sleeps. */
  lemma SearchSleeps(opt: PoolOptions, s: Sys, t: nat)
    requires Reachable(opt, s) && t < |s.threads| && s.threads[t].Idle? && !s.pool.closed && s.pool.available == []
    requires |s.pool.entries| + s.pool.pending >= opt.maxSize && opt.acquireTimeout > 0
    ensures Reachable(opt, At(s, t, Sleeping(Call(s.now + opt.acquireTimeout))))
  {
    StepReachable(opt, s, Search(t));
    assert Evict(opt, s.now, s.stamps, s.pool).1 == [];
  }

  /** Where waiting is allowed, some run strands a sleeper. */
  lemma WaitingStrands(opt: PoolOptions)
    requires 1 <= opt.maxSize && opt.minSize <= opt.maxSize && opt.acquireTimeout > 0
    ensures exists s :: Reachable(opt, s) && Stranded(opt, s)
  {
    var initial := NewPoolReachable(opt);
    var full := FillUp(opt, initial, 3);
    QuietCounts(opt, full, 3);
    var asleep := Sleeping(Call(full.now + opt.acquireTimeout));
    SearchSleeps(opt, full, 1);
    var one := At(full, 1, asleep);
    SearchSleeps(opt, one, 2);
    var two := At(one, 2, asleep);
    StepReachable(opt, two, Tick(opt.acquireTimeout));
    var overdue := two.(now := two.now + opt.acquireTimeout);
    SumIsZero(full.leases, Valid);
    var l :| 0 <= l < |full.leases| && full.leases[l].Some?;
    LateTimeoutStrands(opt, overdue, 0, l, 1, 2);
  }
}
