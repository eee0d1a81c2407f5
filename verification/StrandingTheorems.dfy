/** When a sleeper can be left so: exactly when acquirers may wait at all. */
module StrandingTheorems {
  import opened Collections
  import opened PoolRegions
  import opened PoolProtocol
  import opened PoolWakeup
  import opened PoolStranding

  // ---------------------------------------------------------------- without waiting it cannot

  ghost predicate Calling(pc: Pc) {
    pc.Evicting? || pc.Retrying? || pc.Validating? || pc.Creating? || pc.Sleeping? || pc.Woken?
  }

  /** Nobody sleeps, and whoever is in a call is past its deadline already. */
  ghost predicate Prompt(s: Sys) {
    forall t :: 0 <= t < |s.threads| ==>
      !s.threads[t].Sleeping? && !s.threads[t].Woken? && (Calling(s.threads[t]) ==> s.threads[t].call.deadline <= s.now)
  }

  lemma SearchPrompt(opt: PoolOptions, s: Sys, t: nat)
    requires Prompt(s) && opt.acquireTimeout <= 0 && Enabled(s, Search(t))
    ensures Prompt(DoSearch(opt, s, t))
  {
  }

  lemma LeasePrompt(s: Sys, op: LeaseOp)
    requires Prompt(s) && LeaseEnabled(s, op)
    ensures Prompt(DoLease(s, op))
  {
  }

  lemma PingedPrompt(s: Sys, t: nat, ok: bool)
    requires Prompt(s) && Enabled(s, Pinged(t, ok))
    ensures Prompt(DoPinged(s, t, ok))
  {
  }

  lemma ClosePrompt(s: Sys, t: nat)
    requires Prompt(s) && Enabled(s, Close(t))
    ensures Prompt(DoClose(s, t))
  {
  }

  /** There is no sleeper to wake. */
  lemma WakesNobody(s: Sys, s': Sys, t: nat, woken: Option<nat>)
    requires Prompt(s) && t < |s.threads| && s'.threads == Wake(s.threads[t := Idle], woken) && s'.now == s.now
    ensures Prompt(s')
  {
  }

  lemma StepPrompt(opt: PoolOptions, s: Sys, step: Step)
    requires Prompt(s) && opt.acquireTimeout <= 0 && Enabled(s, step)
    ensures Prompt(Apply(opt, s, step))
  {
    match step
    case Tick(_) =>
    case Search(t) => SearchPrompt(opt, s, t);
    case EndWait(t, _) => assert false;
    case Pinged(t, ok) => PingedPrompt(s, t, ok);
    case Opened(t, ok, w) => WakesNobody(s, DoOpened(s, t, ok, w), t, if ok then None else w);
    case UseLease(op) => LeasePrompt(s, op);
    case PutBackEntry(_, _) =>
    case Notify(t, w) => WakesNobody(s, DoNotify(s, t, w), t, w);
    case Close(t) => ClosePrompt(s, t);
  }

  lemma {:induction false} PromptAfter(opt: PoolOptions, s: Sys, n: nat)
    requires ReachableIn(opt, s, n) && opt.acquireTimeout <= 0
    ensures Prompt(s)
    decreases n
  {
    if n > 0 {
      var before, step :| Follows(opt, before, step, s, n);
      PromptAfter(opt, before, n - 1);
      StepPrompt(opt, before, step);
    }
  }

  lemma NobodySleeps(opt: PoolOptions, s: Sys)
    requires Reachable(opt, s) && opt.acquireTimeout <= 0
    ensures !SomeSleeper(s)
  {
    var n: nat :| ReachableIn(opt, s, n);
    PromptAfter(opt, s, n);
  }

  /**
    When a wakeup can be lost: for every option record a pool accepts, some run leaves a sleeper beside an idle
    connection with nobody to act exactly when the acquire timeout is positive, that is, when acquirers wait at all.
   */
  lemma StrandingExactlyWhenWaiting(opt: PoolOptions)
    requires 1 <= opt.maxSize && opt.minSize <= opt.maxSize
    ensures (exists s :: Reachable(opt, s) && Stranded(opt, s)) <==> opt.acquireTimeout > 0
  {
    if opt.acquireTimeout > 0 {
      WaitingStrands(opt);
    } else {
      forall s | Reachable(opt, s) ensures !Stranded(opt, s) {
        NobodySleeps(opt, s);
      }
    }
  }
}
