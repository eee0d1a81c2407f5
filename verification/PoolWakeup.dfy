/** No sleeper is left behind while there is capacity for it. */
module PoolWakeup {
  import opened Collections
  import opened PoolRegions
  import opened PoolProtocol
  import opened PoolOwnership
  import opened PoolTheorems

  /** Threads that will look at the pool again before they sleep or that still owe a notification. */
  ghost function Active(pc: Pc): nat {
    if pc.Evicting? || pc.Retrying? || pc.Notifying? || (pc.Woken? && pc.notified) then 1 else 0
  }

  ghost predicate SomeSleeper(s: Sys) { exists t: nat :: IsSleeper(s, t) }

  /** Room for one more lease or creation. */
  ghost function Spare(opt: PoolOptions, s: Sys): int {
    opt.maxSize - s.pool.inUse - s.pool.pending
  }

  ghost predicate Attended(opt: PoolOptions, s: Sys) {
    SomeSleeper(s) ==> Spare(opt, s) <= Sum(s.threads, Active) + s.late
  }

  lemma SleepersAfter(s: Sys, s': Sys, t: nat, pc: Pc)
    requires t < |s.threads| && s'.threads == s.threads[t := pc] && !pc.Sleeping?
    ensures SomeSleeper(s') ==> SomeSleeper(s)
    ensures Sum(s'.threads, Active) + Active(s.threads[t]) == Sum(s.threads, Active) + Active(pc)
  {
    SumUpdate(s.threads, Active, t, pc);
    if SomeSleeper(s') {
      var u: nat :| IsSleeper(s', u);
      assert IsSleeper(s, u);
    }
  }

  /** An acquirer sleeps only when the pool is full. */
  lemma DecideAttended(opt: PoolOptions, s: Sys, t: nat, call: Call)
    requires Attended(opt, s) && Conserved(opt, s) && t < |s.threads| && Empty(s.threads[t]) && !s.threads[t].Notifying?
    ensures Attended(opt, DecideStep(opt, s, t, call))
  {
    var s' := DecideStep(opt, s, t, call);
    match Decide(opt, s.pool, call.deadline <= s.now)
    case TakeIdle => SleepersAfter(s, s', t, s'.threads[t]);
    case Create => SleepersAfter(s, s', t, s'.threads[t]);
    case GiveUp =>
      SleepersAfter(s, s', t, s'.threads[t]);
      assert Spare(opt, s') <= 0;
    case Wait => assert Spare(opt, s') <= 0;
  }

  lemma LoopAttended(opt: PoolOptions, s: Sys, t: nat, call: Call)
    requires Attended(opt, s) && Conserved(opt, s) && t < |s.threads| && Empty(s.threads[t]) && !s.threads[t].Notifying?
    ensures Attended(opt, LoopTop(opt, s, t, call))
  {
    var (p, gone) := Evict(opt, s.now, s.stamps, s.pool);
    SleepersAfter(s, At(s.(pool := p), t, Evicting(call)), t, Evicting(call));
    DecideAttended(opt, s, t, call);
  }

  /** notify_one hands the obligation to a sleeper, or finds none. */
  lemma WakeAttended(s: Sys, woken: Option<nat>)
    requires MayWake(s, woken)
    ensures var s' := s.(threads := Wake(s.threads, woken));
            SomeSleeper(s') ==> Sum(s'.threads, Active) == Sum(s.threads, Active) + 1 && SomeSleeper(s)
  {
    var s' := s.(threads := Wake(s.threads, woken));
    match woken
    case Some(w) => SleepersAfter(s, s', w, Woken(s.threads[w].call, true));
    case None =>
  }

  /** A thread leaves the mutex awake, and any room it makes comes with the duty to act on it. */
  lemma LocalAttended(opt: PoolOptions, s: Sys, s': Sys, t: nat, pc: Pc)
    requires Attended(opt, s) && t < |s.threads| && s'.threads == s.threads[t := pc] && !pc.Sleeping?
    requires Spare(opt, s') - Active(pc) - s'.late <= Spare(opt, s) - Active(s.threads[t]) - s.late
    ensures Attended(opt, s')
  {
    SleepersAfter(s, s', t, pc);
  }

  /** One more unit of room, or one duty less, and a notify_one in the same breath. */
  lemma WakingAttended(opt: PoolOptions, s: Sys, s': Sys, t: nat, woken: Option<nat>)
    requires Attended(opt, s) && t < |s.threads| && !s.threads[t].Sleeping? && MayWake(s, woken)
    requires s'.threads == Wake(s.threads[t := Idle], woken) && s'.late == s.late
    requires Spare(opt, s') + Active(s.threads[t]) <= Spare(opt, s) + 1
    ensures Attended(opt, s')
  {
    var mid := At(s, t, Idle);
    SleepersAfter(s, mid, t, Idle);
    WakeAttended(mid, woken);
    SameSleepers(mid.(threads := Wake(mid.threads, woken)), s');
  }

  lemma SameSleepers(s: Sys, s': Sys)
    requires s'.threads == s.threads
    ensures SomeSleeper(s') == SomeSleeper(s)
  {
    if SomeSleeper(s) {
      var u: nat :| IsSleeper(s, u);
      assert IsSleeper(s', u);
    }
    if SomeSleeper(s') {
      var u: nat :| IsSleeper(s', u);
      assert IsSleeper(s, u);
    }
  }

  lemma SameAttended(opt: PoolOptions, s: Sys, s': Sys)
    requires Attended(opt, s) && s'.threads == s.threads && Spare(opt, s') == Spare(opt, s) && s'.late == s.late
    ensures Attended(opt, s')
  {
    SameSleepers(s, s');
  }

  lemma SearchAttended(opt: PoolOptions, s: Sys, t: nat)
    requires Attended(opt, s) && Conserved(opt, s) && Enabled(s, Search(t))
    ensures Attended(opt, DoSearch(opt, s, t))
  {
    var call := CallOf(opt, s, t);
    if s.threads[t].Evicting? {
      DecideAttended(opt, s, t, call);
    } else {
      LoopAttended(opt, s, t, call);
    }
  }

  lemma OpenedAttended(opt: PoolOptions, s: Sys, t: nat, ok: bool, woken: Option<nat>)
    requires Attended(opt, s) && Enabled(s, Opened(t, ok, woken))
    ensures Attended(opt, DoOpened(s, t, ok, woken))
  {
    if ok {
      LocalAttended(opt, s, DoOpened(s, t, ok, woken), t, Idle);
    } else {
      WakingAttended(opt, s, DoOpened(s, t, ok, woken), t, woken);
    }
  }

  lemma LeaseAttended(opt: PoolOptions, s: Sys, op: LeaseOp)
    requires Attended(opt, s) && LeaseEnabled(s, op)
    ensures Attended(opt, DoLease(s, op))
  {
    var s' := DoLease(s, op);
    if op.MoveOut? || s'.threads == s.threads {
      SameAttended(opt, s, s');
    } else {
      LocalAttended(opt, s, s', op.t, s'.threads[op.t]);
    }
  }

  lemma EndWaitAttended(opt: PoolOptions, s: Sys, t: nat, timedOut: bool)
    requires Attended(opt, s) && Enabled(s, EndWait(t, timedOut))
    ensures Attended(opt, DoEndWait(s, t, timedOut))
  {
    var s' := DoEndWait(s, t, timedOut);
    LocalAttended(opt, s, s', t, s'.threads[t]);
  }

  lemma PingedAttended(opt: PoolOptions, s: Sys, t: nat, ok: bool)
    requires Attended(opt, s) && Enabled(s, Pinged(t, ok))
    ensures Attended(opt, DoPinged(s, t, ok))
  {
    var s' := DoPinged(s, t, ok);
    LocalAttended(opt, s, s', t, s'.threads[t]);
  }

  lemma StepAttended(opt: PoolOptions, s: Sys, step: Step)
    requires Attended(opt, s) && Conserved(opt, s) && Enabled(s, step)
    ensures Attended(opt, Apply(opt, s, step))
  {
    match step
    case Tick(dt) => SameAttended(opt, s, s.(now := s.now + dt));
    case Search(t) => SearchAttended(opt, s, t);
    case EndWait(t, timedOut) => EndWaitAttended(opt, s, t, timedOut);
    case Pinged(t, ok) => PingedAttended(opt, s, t, ok);
    case Opened(t, ok, w) => OpenedAttended(opt, s, t, ok, w);
    case UseLease(op) => LeaseAttended(opt, s, op);
    case PutBackEntry(t, usable) => LocalAttended(opt, s, DoPutBack(s, t, usable), t, Notifying(s.threads[t].after));
    case Notify(t, w) => WakingAttended(opt, s, DoNotify(s, t, w), t, w);
    case Close(t) =>
      var s' := DoClose(s, t);
      LocalAttended(opt, s, s', t, s'.threads[t]);
  }

  lemma {:induction false} AttendedAfter(opt: PoolOptions, s: Sys, n: nat)
    requires ReachableIn(opt, s, n)
    ensures Attended(opt, s)
    decreases n
  {
    if n > 0 {
      var before, step :| Follows(opt, before, step, s, n);
      AttendedAfter(opt, before, n - 1);
      InvAfter(opt, before, n - 1);
      StepAttended(opt, before, step);
    }
  }

  /**
    No lost wakeup: with someone asleep, spare capacity never exceeds the threads about to act on it, plus one for
    each notified wait that reported a timeout all the same.
   */
  lemma NoLostWakeup(opt: PoolOptions, s: Sys)
    requires Reachable(opt, s) && SomeSleeper(s)
    ensures opt.maxSize - s.pool.inUse - s.pool.pending <= Sum(s.threads, Active) + s.late
  {
    var n: nat :| ReachableIn(opt, s, n);
    AttendedAfter(opt, s, n);
  }

  /** If no notified wait timed out, nobody sleeps while everybody else is at rest and a connection could be had. */
  lemma NoStrandedSleeper(opt: PoolOptions, s: Sys)
    requires Reachable(opt, s) && s.late == 0 && SomeSleeper(s)
    requires forall t :: 0 <= t < |s.threads| ==> s.threads[t].Idle? || s.threads[t].Sleeping?
    ensures s.pool.available == [] && s.pool.inUse == |s.pool.entries| == opt.maxSize == Sum(s.leases, Valid)
  {
    NoLostWakeup(opt, s);
    Conservation(opt, s);
    SumIsZero(s.threads, Active);
    SumIsZero(s.threads, Creators);
    SumIsZero(s.threads, Validators);
    SumIsZero(s.threads, Releasers);
  }
}
