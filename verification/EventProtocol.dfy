/**
  EventListener as a transition system: server callbacks, the dispatcher thread and stop(), split where the mutex is
  released. Every step is one region under the mutex, or one action outside it.
 */
module EventProtocol {
  import opened Collections
  import opened EventBlocks
  import opened EventCounts

  /** Checking: about to evaluate the wait predicate. Waiting: asleep on the condition variable. */
  datatype Dispatcher = Checking | Waiting | Delivering(notification: Notification) | Exited

  /** How far a stop() has got; Notifying covers cancelling the handle and detaching the callback. */
  datatype Stop = NotStopped | Notifying | Joining | Clearing | Stopped

  datatype Sys = Sys(
    intake: Intake,
    notifiers: nat,             // callbacks past the mutex that have not called notify_one yet
    dispatcher: Dispatcher,
    stop: Stop,
    history: seq<Counters>,     // the counters absorbed so far, block by block
    enqueued: seq<Notification>,
    delivered: seq<Notification>)

  datatype Step =
    | Receive(events: seq<Byte>)
    | NotifyOne
    | GiveUp                    // a callback that could not queue the events again
    | Wake                      // the condition variable may also wake the dispatcher for no reason
    | Look
    | Deliver
    | StopBegin
    | StopNotify
    | StopJoin
    | StopClear

  predicate Enabled(s: Sys, step: Step) {
    match step
    case Receive(_) => true
    case NotifyOne => s.notifiers > 0
    case GiveUp => true
    case Wake => s.dispatcher.Waiting?
    case Look => s.dispatcher.Checking?
    case Deliver => s.dispatcher.Delivering?
    case StopBegin => s.stop.NotStopped?
    case StopNotify => s.stop.Notifying?
    case StopJoin => s.stop.Joining? && s.dispatcher.Exited?
    case StopClear => s.stop.Clearing?
  }

  function Woken(d: Dispatcher): Dispatcher { if d.Waiting? then Checking else d }

  function DoReceive(s: Sys, events: seq<Byte>): Sys
    requires s.intake.Sized()
  {
    var added := Addition(s.intake, events);
    s.(intake := Received(s.intake, events),
       notifiers := s.notifiers + |added|,
       history := if s.intake.listening && events != [] then s.history + [Absorbing(s.intake, events)] else s.history,
       enqueued := s.enqueued + added)
  }

  function DoGiveUp(s: Sys): Sys {
    if s.intake.listening then s.(intake := s.intake.(listening := false), dispatcher := Woken(s.dispatcher)) else s
  }

  /** The dispatcher holding the mutex: it takes the front, or leaves, or sleeps. */
  function DoLook(s: Sys): Sys {
    if s.intake.pending != [] then
      s.(intake := s.intake.(pending := s.intake.pending[1..]), dispatcher := Delivering(s.intake.pending[0]))
    else if !s.intake.listening then s.(dispatcher := Exited)
    else s.(dispatcher := Waiting)
  }

  function DoDeliver(s: Sys): Sys
    requires s.dispatcher.Delivering?
  {
    s.(delivered := s.delivered + [s.dispatcher.notification], dispatcher := Checking)
  }

  function DoStop(s: Sys): Sys {
    match s.stop
    case NotStopped => s.(intake := s.intake.(listening := false), stop := Notifying)
    case Notifying => s.(dispatcher := Woken(s.dispatcher), stop := Joining)
    case Joining => s.(stop := Clearing)
    case Clearing => s.(intake := s.intake.(pending := []), stop := Stopped)
    case Stopped => s
  }

  function Apply(s: Sys, step: Step): Sys
    requires Enabled(s, step) && s.intake.Sized()
  {
    match step
    case Receive(events) => DoReceive(s, events)
    case NotifyOne => s.(notifiers := s.notifiers - 1, dispatcher := Woken(s.dispatcher))
    case GiveUp => DoGiveUp(s)
    case Wake => s.(dispatcher := Checking)
    case Look => DoLook(s)
    case Deliver => DoDeliver(s)
    case StopBegin => DoStop(s)
    case StopNotify => DoStop(s)
    case StopJoin => DoStop(s)
    case StopClear => DoStop(s)
  }

  /** A listener that has just been constructed. */
  predicate Initial(s: Sys) {
    && Acceptable(s.intake.names)
    && s.intake.stored == seq(|s.intake.names|, _ => 0)
    && s.intake.result == seq(BlockSize(s.intake.names), _ => 0)
    && !s.intake.first && s.intake.listening && s.intake.pending == []
    && s.notifiers == 0 && s.dispatcher.Checking? && s.stop.NotStopped?
    && s.history == [] && s.enqueued == [] && s.delivered == []
  }

  /** `t` is reached from `s` by taking `steps` in turn, whoever takes them. */
  ghost predicate Follows(s: Sys, steps: seq<Step>, t: Sys)
    decreases |steps|
  {
    if steps == [] then s == t
    else s.intake.Sized() && Enabled(s, steps[0]) && Follows(Apply(s, steps[0]), steps[1..], t)
  }

  ghost predicate Reachable(s: Sys) {
    exists init, steps :: Initial(init) && Follows(init, steps, s)
  }

  // ---------------------------------------------------------------- the invariant

  function InHand(d: Dispatcher): seq<Notification> {
    if d.Delivering? then [d.notification] else []
  }

  /** Nothing enqueued is lost, repeated or reordered on its way to the callback. */
  predicate InOrder(s: Sys) {
    s.enqueued == s.delivered + InHand(s.dispatcher) + s.intake.pending
  }

  /** The stored counters are those of the last block absorbed, and the queue has seen what the blocks announced. */
  ghost predicate Absorbed(s: Sys) {
    && s.intake.Sized() && SameWidth(s.history, |s.intake.names|)
    && (s.intake.first <==> s.history != [])
    && (s.history != [] ==> s.intake.stored == s.history[|s.history| - 1])
    && s.enqueued == Announced(s.intake.names, s.history)
  }

  predicate StopsInOrder(s: Sys) {
    && (!s.stop.NotStopped? ==> !s.intake.listening)
    && (s.stop.Clearing? || s.stop.Stopped? ==> s.dispatcher.Exited?)
    && (s.dispatcher.Exited? ==> !s.intake.listening && s.intake.pending == [])
  }

  /** A sleeping dispatcher has nothing to do, or somebody is about to wake it. */
  predicate WillBeWoken(s: Sys) {
    s.dispatcher.Waiting? ==>
      && (s.intake.pending != [] ==> s.notifiers > 0)
      && (!s.intake.listening ==> s.stop.Notifying?)
  }

  ghost predicate Inv(s: Sys) {
    Absorbed(s) && InOrder(s) && StopsInOrder(s) && WillBeWoken(s)
  }

  lemma InitialInv(s: Sys)
    requires Initial(s)
    ensures Inv(s)
  {
  }

  lemma AdditionIsAnnounced(s: Intake, history: seq<Counters>, enqueued: seq<Notification>, stored: Counters)
    requires SameWidth(history, |s.names|) && |s.stored| == |stored| == |s.names|
    requires s.first <==> history != []
    requires history != [] ==> s.stored == history[|history| - 1]
    requires enqueued == Announced(s.names, history)
    ensures SameWidth(history + [stored], |s.names|)
    ensures Announced(s.names, history + [stored])
         == enqueued + if s.first then Queued(News(s.names, s.stored, stored)) else []
  {
    AnnouncedSnoc(s.names, history, stored);
    assert history == [] ==> enqueued == [];
  }

  lemma ReceiveKeepsAbsorbed(s: Sys, events: seq<Byte>)
    requires Absorbed(s)
    ensures Absorbed(DoReceive(s, events))
  {
    if s.intake.listening && events != [] {
      AdditionIsAnnounced(s.intake, s.history, s.enqueued, Absorbing(s.intake, events));
    } else {
      assert s.enqueued + [] == s.enqueued;
    }
  }

  lemma ReceiveKeepsInv(s: Sys, events: seq<Byte>)
    requires Inv(s)
    ensures Inv(DoReceive(s, events))
  {
    ReceiveKeepsAbsorbed(s, events);
    var taken := s.delivered + InHand(s.dispatcher);
    Regroup(taken, s.intake.pending, Addition(s.intake, events));
    assert taken + s.intake.pending + [] == taken + s.intake.pending;
  }

  lemma LookKeepsInv(s: Sys)
    requires Inv(s) && s.dispatcher.Checking?
    ensures Inv(DoLook(s))
  {
    if s.intake.pending != [] {
      assert s.intake.pending == [s.intake.pending[0]] + s.intake.pending[1..];
    }
  }

  lemma DeliverKeepsInv(s: Sys)
    requires Inv(s) && s.dispatcher.Delivering?
    ensures Inv(DoDeliver(s))
  {
  }

  lemma StopKeepsInv(s: Sys)
    requires Inv(s) && (s.stop.Joining? ==> s.dispatcher.Exited?)
    ensures Inv(DoStop(s))
  {
  }

  lemma GiveUpKeepsInv(s: Sys)
    requires Inv(s)
    ensures Inv(DoGiveUp(s))
  {
  }

  lemma StepKeepsInv(s: Sys, step: Step)
    requires Inv(s) && Enabled(s, step)
    ensures Inv(Apply(s, step))
  {
    match step
    case Receive(events) => ReceiveKeepsInv(s, events);
    case GiveUp => GiveUpKeepsInv(s);
    case Look => LookKeepsInv(s);
    case Deliver => DeliverKeepsInv(s);
    case StopBegin => StopKeepsInv(s);
    case StopNotify => StopKeepsInv(s);
    case StopJoin => StopKeepsInv(s);
    case StopClear => StopKeepsInv(s);
    case NotifyOne =>
    case Wake =>
  }

  lemma {:induction false} RunKeepsInv(s: Sys, steps: seq<Step>, t: Sys)
    requires Inv(s) && Follows(s, steps, t)
    ensures Inv(t)
    decreases |steps|
  {
    if steps != [] {
      StepKeepsInv(s, steps[0]);
      RunKeepsInv(Apply(s, steps[0]), steps[1..], t);
    }
  }

  lemma ReachableInv(s: Sys)
    requires Reachable(s)
    ensures Inv(s)
  {
    var init, steps :| Initial(init) && Follows(init, steps, s);
    InitialInv(init);
    RunKeepsInv(init, steps, s);
  }
}
