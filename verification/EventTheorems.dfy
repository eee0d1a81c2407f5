/** What holds of an event listener in every state any run can reach. */
module EventTheorems {
  import opened Collections
  import opened EventBlocks
  import opened EventCounts
  import opened EventProtocol

  // ---------------------------------------------------------------- what a block does

  /**
    While listening, a whole block of the registered names leaves its counters as the stored ones; what is enqueued
    lists the counters that rose, by how much, and is nothing for the first block.
   */
  lemma BlockIsAbsorbed(s: Sys, counts: Counters)
    requires s.intake.Sized() && |counts| == |s.intake.names| && s.intake.listening
    ensures var t := Apply(s, Receive(Block(s.intake.names, counts)));
            && t.intake.stored == counts && t.history == s.history + [counts] && t.intake.first
            && (!s.intake.first ==> t.enqueued == s.enqueued)
            && (s.intake.first ==>
                  exists n, at :: t.enqueued == s.enqueued + (if n == [] then [] else [n])
                                  && Lists(n, s.intake.names, s.intake.stored, counts, at))
  {
    var names, block := s.intake.names, Block(s.intake.names, counts);
    WholeBlock(s.intake, counts);
    var raw := Differences(counts, s.intake.stored);
    ReportReports(names, raw, |names|);
    var at :| Reports(Report(names, raw, |names|), names, raw, |names|, at);
    assert Lists(News(names, s.intake.stored, counts), names, s.intake.stored, counts, at);
  }

  /** `at` places the entries among the registered names, in order: they are the counters that rose. */
  ghost predicate Lists(n: Notification, names: seq<Name>, before: Counters, after: Counters, at: seq<nat>)
    requires |before| == |after| == |names|
  {
    && |at| == |n|
    && (forall j :: 0 <= j < |n| ==> at[j] < |names| && n[j].name == names[at[j]] && before[at[j]] < after[at[j]]
                                     && n[j].count as int == after[at[j]] as int - before[at[j]] as int)
    && (forall j, l :: 0 <= j < l < |n| ==> at[j] < at[l])
    && (forall i :: 0 <= i < |names| && before[i] < after[i] ==> i in at)
  }

  lemma WholeBlock(s: Intake, counts: Counters)
    requires s.Sized() && |counts| == |s.names|
    ensures |Block(s.names, counts)| == BlockSize(s.names) && Block(s.names, counts) != []
    ensures Absorbing(s, Block(s.names, counts)) == counts
  {
    forall i | 0 <= i < |counts| ensures CounterOf(s.names, Block(s.names, counts), i) == counts[i] {
      CounterInBlock(s.names, counts, i);
    }
    StartsGrow(s.names, 0, |s.names|);
  }

  /** A block that arrives when nobody listens any more, or that is empty, changes nothing. */
  lemma IgnoredBlock(s: Sys, events: seq<Byte>)
    requires s.intake.Sized() && (events == [] || !s.intake.listening)
    ensures Apply(s, Receive(events)) == s
  {
  }

  // ---------------------------------------------------------------- stop loses nothing

  /** The user's callback has seen a prefix of what was enqueued, in order; after the join, all of it. */
  lemma StopLosesNothing(s: Sys)
    requires Reachable(s)
    ensures s.delivered <= s.enqueued
    ensures s.stop.Clearing? || s.stop.Stopped? ==> s.delivered == s.enqueued && s.intake.pending == []
  {
    ReachableInv(s);
  }

  /** The final clear() acts on an empty queue. */
  lemma ClearFindsNothing(s: Sys)
    requires Reachable(s) && Enabled(s, StopClear) && s.intake.Sized()
    ensures Apply(s, StopClear).intake == s.intake
  {
    ReachableInv(s);
  }

  /** Every notification delivered is non-empty and reports a difference between two consecutive blocks. */
  lemma DeliveredAreDifferences(s: Sys, n: Notification)
    requires Reachable(s) && n in s.delivered
    ensures n != [] && SameWidth(s.history, |s.intake.names|)
    ensures exists j :: 0 < j < |s.history| && n == News(s.intake.names, s.history[j - 1], s.history[j])
  {
    ReachableInv(s);
    assert n in s.enqueued;
    AnnouncedSound(s.intake.names, s.history, |s.history|, n);
  }

  /**
    End to end: once stop() has joined the dispatcher, what the user's callback received under each name is the
    growth of its counters since the first block, exactly when no counter went down between two blocks.
   */
  lemma DeliveredCountsAddUp(s: Sys)
    requires Reachable(s) && (s.stop.Clearing? || s.stop.Stopped?) && s.history != []
    ensures SameWidth(s.history, |s.intake.names|) && s.intake.stored == s.history[|s.history| - 1]
    ensures (forall name :: TotalIn(s.delivered, name) == GrowthOf(s.intake.names, s.history, name))
       <==> (forall i :: 0 <= i < |s.intake.names| ==> NonDecreasing(s.history, i))
  {
    ReachableInv(s);
    StopLosesNothing(s);
    CountsTelescope(s.intake.names, s.history);
  }

  // ---------------------------------------------------------------- nobody sleeps for ever

  /** No lost wakeup: the dispatcher never sleeps over work or over a stop that is past its notify_all. */
  lemma NoLostDispatcherWakeup(s: Sys)
    requires Reachable(s) && s.dispatcher.Waiting?
    ensures s.intake.pending != [] ==> s.notifiers > 0
    ensures !s.intake.listening ==> s.stop.Notifying?
    ensures s.notifiers == 0 && s.intake.listening ==> s.intake.pending == []
  {
    ReachableInv(s);
  }

  /** Steps the dispatcher still has to take before it leaves, once nothing can be enqueued any more. */
  function TurnsLeft(s: Sys): nat {
    match s.dispatcher
    case Exited => 0
    case Checking => 2 * |s.intake.pending| + 1
    case Waiting => 2 * |s.intake.pending| + 1
    case Delivering(_) => 2 * |s.intake.pending| + 2
  }

  predicate DispatcherStep(step: Step) { step.Look? || step.Deliver? }

  function DispatcherTurns(steps: seq<Step>): nat {
    if steps == [] then 0 else (if DispatcherStep(steps[0]) then 1 else 0) + DispatcherTurns(steps[1..])
  }

  predicate PastNotify(s: Sys) { !s.stop.NotStopped? && !s.stop.Notifying? }

  lemma TurnTaken(s: Sys, step: Step)
    requires Inv(s) && PastNotify(s) && Enabled(s, step)
    ensures PastNotify(Apply(s, step)) && !s.dispatcher.Waiting?
    ensures TurnsLeft(Apply(s, step)) == TurnsLeft(s) - if DispatcherStep(step) then 1 else 0
  {
  }

  lemma {:induction false} JoinIsReached(s: Sys, steps: seq<Step>, t: Sys)
    requires Inv(s) && PastNotify(s) && Follows(s, steps, t)
    ensures TurnsLeft(t) == TurnsLeft(s) - DispatcherTurns(steps)
    ensures t.dispatcher.Exited? <==> DispatcherTurns(steps) == TurnsLeft(s)
    ensures !t.dispatcher.Exited? ==> Enabled(t, Look) || Enabled(t, Deliver)
    decreases |steps|
  {
    if steps == [] {
      TurnTaken(s, GiveUp);
    } else {
      TurnTaken(s, steps[0]);
      StepKeepsInv(s, steps[0]);
      JoinIsReached(Apply(s, steps[0]), steps[1..], t);
    }
  }

  /** From `s` on, whoever takes whichever steps, the dispatcher exits after exactly `TurnsLeft(s)` turns of its own. */
  ghost predicate ExitsInTime(s: Sys) {
    forall steps, t :: Follows(s, steps, t) ==>
      && DispatcherTurns(steps) <= TurnsLeft(s)
      && (t.dispatcher.Exited? <==> DispatcherTurns(steps) == TurnsLeft(s))
      && (!t.dispatcher.Exited? ==> Enabled(t, Look) || Enabled(t, Deliver))
  }

  /**
    stop() returns: once it waits for the join, no step of anybody gives the dispatcher more to do, the dispatcher is
    never blocked, and it exits after a number of its own turns that is known from the start.
   */
  lemma StopReturns(s: Sys)
    requires Reachable(s) && s.stop.Joining?
    ensures ExitsInTime(s)
  {
    ReachableInv(s);
    forall steps, t | Follows(s, steps, t)
      ensures DispatcherTurns(steps) <= TurnsLeft(s)
      ensures t.dispatcher.Exited? <==> DispatcherTurns(steps) == TurnsLeft(s)
      ensures !t.dispatcher.Exited? ==> Enabled(t, Look) || Enabled(t, Deliver)
    {
      JoinIsReached(s, steps, t);
    }
  }
}
