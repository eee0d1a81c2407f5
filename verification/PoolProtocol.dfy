/**
  The pool under concurrency. Every step is one region of AttachmentPool code between two points where the mutex is
  free; a thread's program counter says where it stands outside the mutex. Any number of threads and leases.
 */
module PoolProtocol {
  import opened Collections
  import opened PoolRegions

  /** One running acquire() or tryAcquire(), which differ only in how they report failure. */
  datatype Call = Call(deadline: int)

  /** What a thread does after a pool release: nothing, or finish `dst = std::move(src)`. */
  datatype After = Nothing | MoveInto(dst: nat, src: nat)

  datatype Pc =
    | Idle
    | Evicting(call: Call)        // destroying evicted entries, before the idle queue is looked at
    | Retrying(call: Call)        // destroying an entry whose ping failed, before another turn of the loop
    | Validating(call: Call, entry: nat)
    | Creating(call: Call)
    | Sleeping(call: Call)
    | Woken(call: Call, notified: bool)  // out of the wait, about to retake the mutex
    | Releasing(entry: nat, after: After)  // lease already nulled, mutex not yet taken
    | Notifying(after: After)     // mutex left, notify_one not yet called
    | Draining                    // close() destroying one entry

  datatype Sys = Sys(
    pool: Pool<nat>,
    stamps: map<nat, Stamp>,
    threads: seq<Pc>,
    leases: seq<Option<nat>>,
    now: int,
    next: nat,                    // handles from here on were never used
    granted: nat,                 // leases handed out so far
    returned: nat,                // pool releases that took the mutex so far
    late: nat,                    // notified waits that nevertheless reported a timeout
    drained: bool)                // some close() has returned

  datatype LeaseOp =
    | MoveOut(src: nat)                        // move construction
    | Drop(t: nat, l: nat)                     // release() or destruction
    | Assign(t: nat, dst: nat, src: nat)       // move assignment

  datatype Step =
    | Tick(dt: nat)
    | Search(t: nat)                           // acquireImpl up to its next unlock: on entry, or on retaking the mutex
    | EndWait(t: nat, timedOut: bool)          // wait_for reports timeout, or wakes for no reason
    | Pinged(t: nat, ok: bool)
    | Opened(t: nat, ok: bool, woken: Option<nat>)
    | UseLease(op: LeaseOp)
    | PutBackEntry(t: nat, usable: bool)
    | Notify(t: nat, woken: Option<nat>)
    | Close(t: nat)                            // one region of close()

  ghost predicate IsSleeper(s: Sys, t: nat) { t < |s.threads| && s.threads[t].Sleeping? }

  /** notify_one: some sleeper is woken when there is one. */
  ghost predicate MayWake(s: Sys, woken: Option<nat>) {
    match woken
    case Some(w) => IsSleeper(s, w)
    case None => forall t :: 0 <= t < |s.threads| ==> !s.threads[t].Sleeping?
  }

  ghost function Wake(threads: seq<Pc>, woken: Option<nat>): seq<Pc> {
    if woken.Some? && woken.value < |threads| && threads[woken.value].Sleeping?
    then threads[woken.value := Woken(threads[woken.value].call, true)]
    else threads
  }

  ghost predicate HasAfter(pc: Pc) { pc.Releasing? || pc.Notifying? }

  /** A lease is used by one thread at a time: `l` belongs to an unfinished move assignment. */
  ghost predicate Busy(s: Sys, l: nat) {
    exists t :: 0 <= t < |s.threads| && HasAfter(s.threads[t]) && s.threads[t].after.MoveInto? &&
                (s.threads[t].after.dst == l || s.threads[t].after.src == l)
  }

  ghost predicate LeaseEnabled(s: Sys, op: LeaseOp) {
    match op
    case MoveOut(src) => src < |s.leases| && !Busy(s, src)
    case Drop(t, l) => t < |s.threads| && s.threads[t].Idle? && l < |s.leases| && !Busy(s, l)
    case Assign(t, dst, src) =>
      t < |s.threads| && s.threads[t].Idle? && dst < |s.leases| && src < |s.leases| && !Busy(s, dst) && !Busy(s, src)
  }

  ghost predicate Enabled(s: Sys, step: Step) {
    match step
    case Tick(_) => true
    case Search(t) =>
      t < |s.threads| && (s.threads[t].Idle? || s.threads[t].Evicting? || s.threads[t].Retrying? || s.threads[t].Woken?)
    case EndWait(t, timedOut) =>
      && t < |s.threads| && (s.threads[t].Sleeping? || (timedOut && s.threads[t].Woken?))
      && (timedOut ==> s.threads[t].call.deadline <= s.now)
    case Pinged(t, _) => t < |s.threads| && s.threads[t].Validating?
    case Opened(t, ok, w) => t < |s.threads| && s.threads[t].Creating? && (!ok ==> MayWake(s, w))
    case UseLease(op) => LeaseEnabled(s, op)
    case PutBackEntry(t, _) => t < |s.threads| && s.threads[t].Releasing?
    case Notify(t, w) => t < |s.threads| && s.threads[t].Notifying? && MayWake(s, w)
    case Close(t) => t < |s.threads| && (s.threads[t].Idle? || s.threads[t].Draining?)
  }

  ghost function At(s: Sys, t: nat, pc: Pc): Sys
    requires t < |s.threads|
  {
    s.(threads := s.threads[t := pc])
  }

  /** acquireImpl returns PooledAttachment{*this, e}. */
  ghost function Grant(s: Sys, t: nat, e: nat): Sys
    requires t < |s.threads|
  {
    At(s, t, Idle).(leases := s.leases + [Some(e)], granted := s.granted + 1)
  }

  ghost function DecideStep(opt: PoolOptions, s: Sys, t: nat, call: Call): Sys
    requires t < |s.threads|
  {
    match Decide(opt, s.pool, call.deadline <= s.now)
    case TakeIdle =>
      var e := s.pool.available[0];
      var taken := s.(pool := Take(s.pool));
      if opt.validateOnAcquire then At(taken, t, Validating(call, e)) else Grant(taken, t, e)
    case Create => At(s.(pool := Reserve(s.pool)), t, Creating(call))
    case GiveUp => At(s, t, Idle)
    case Wait => At(s, t, Sleeping(call))
  }

  /** One turn of the retry loop from its top: the mutex is left early only when something was evicted. */
  ghost function LoopTop(opt: PoolOptions, s: Sys, t: nat, call: Call): Sys
    requires t < |s.threads|
  {
    var (p, gone) := Evict(opt, s.now, s.stamps, s.pool);
    if gone != [] then At(s.(pool := p), t, Evicting(call)) else DecideStep(opt, s, t, call)
  }

  ghost function DrainStep(s: Sys, t: nat): Sys
    requires t < |s.threads|
  {
    if s.pool.available == [] then At(s, t, Idle).(drained := true)
    else At(s.(pool := DrainOne(s.pool)), t, Draining)
  }

  /** The rest of `dst = std::move(src)` once dst's old entry is back in the pool. */
  ghost function FinishMove(leases: seq<Option<nat>>, after: After): seq<Option<nat>> {
    if after.MoveInto? && after.dst < |leases| && after.src < |leases|
    then leases[after.dst := leases[after.src]][after.src := None]
    else leases
  }

  // ---------------------------------------------------------------- one function per kind of step

  ghost function CallOf(opt: PoolOptions, s: Sys, t: nat): Call
    requires Enabled(s, Search(t))
  {
    if s.threads[t].Idle? then Call(s.now + opt.acquireTimeout) else s.threads[t].call
  }

  ghost function DoSearch(opt: PoolOptions, s: Sys, t: nat): Sys
    requires Enabled(s, Search(t))
  {
    if s.threads[t].Idle? && s.pool.closed then s
    else if s.threads[t].Evicting? then DecideStep(opt, s, t, CallOf(opt, s, t))
    else LoopTop(opt, s, t, CallOf(opt, s, t))
  }

  ghost function DoEndWait(s: Sys, t: nat, timedOut: bool): Sys
    requires Enabled(s, EndWait(t, timedOut))
  {
    if !timedOut then At(s, t, Woken(s.threads[t].call, false))
    else At(s, t, Idle).(late := if s.threads[t].Woken? && s.threads[t].notified then s.late + 1 else s.late)
  }

  ghost function DoPinged(s: Sys, t: nat, ok: bool): Sys
    requires Enabled(s, Pinged(t, ok))
  {
    if ok then Grant(s, t, s.threads[t].entry)
    else At(s.(pool := Discard(s.pool, s.threads[t].entry)), t, Retrying(s.threads[t].call))
  }

  /** The connection is open: its entry joins the pool and is leased. */
  ghost function Connected(s: Sys, t: nat): Sys
    requires t < |s.threads|
  {
    Grant(s.(pool := Register(s.pool, s.next), stamps := s.stamps[s.next := Stamp(s.now, s.now)], next := s.next + 1),
          t, s.next)
  }

  /** It could not be opened: the reservation is given back and another waiter is told. */
  ghost function Failed(s: Sys, t: nat, woken: Option<nat>): Sys
    requires t < |s.threads|
  {
    s.(pool := Unreserve(s.pool), threads := Wake(s.threads[t := Idle], woken))
  }

  ghost function DoOpened(s: Sys, t: nat, ok: bool, woken: Option<nat>): Sys
    requires Enabled(s, Opened(t, ok, woken))
  {
    if ok then Connected(s, t) else Failed(s, t, woken)
  }

  ghost function DropInto(s: Sys, t: nat, l: nat, after: After): Sys
    requires t < |s.threads| && l < |s.leases| && s.leases[l].Some?
  {
    At(s, t, Releasing(s.leases[l].value, after)).(leases := s.leases[l := None])
  }

  ghost function DoLease(s: Sys, op: LeaseOp): Sys
    requires LeaseEnabled(s, op)
  {
    match op
    case MoveOut(src) => s.(leases := s.leases[src := None] + [s.leases[src]])
    case Drop(t, l) => if s.leases[l].None? then s else DropInto(s, t, l, Nothing)
    case Assign(t, dst, src) =>
      if dst == src then s
      else if s.leases[dst].None? then s.(leases := FinishMove(s.leases, MoveInto(dst, src)))
      else DropInto(s, t, dst, MoveInto(dst, src))
  }

  ghost function DoPutBack(s: Sys, t: nat, usable: bool): Sys
    requires Enabled(s, PutBackEntry(t, usable))
  {
    var e := s.threads[t].entry;
    At(s.(pool := PutBack(s.pool, e, usable), stamps := Restamp(s.pool, s.stamps, e, usable, s.now)), t,
       Notifying(s.threads[t].after)).(returned := s.returned + 1)
  }

  ghost function DoNotify(s: Sys, t: nat, woken: Option<nat>): Sys
    requires Enabled(s, Notify(t, woken))
  {
    s.(threads := Wake(s.threads[t := Idle], woken), leases := FinishMove(s.leases, s.threads[t].after))
  }

  ghost function DoClose(s: Sys, t: nat): Sys
    requires Enabled(s, Close(t))
  {
    DrainStep(if s.threads[t].Idle? then s.(pool := Shut(s.pool)) else s, t)
  }

  ghost function Apply(opt: PoolOptions, s: Sys, step: Step): Sys
    requires Enabled(s, step)
  {
    match step
    case Tick(dt) => s.(now := s.now + dt)
    case Search(t) => DoSearch(opt, s, t)
    case EndWait(t, timedOut) => DoEndWait(s, t, timedOut)
    case Pinged(t, ok) => DoPinged(s, t, ok)
    case Opened(t, ok, w) => DoOpened(s, t, ok, w)
    case UseLease(op) => DoLease(s, op)
    case PutBackEntry(t, usable) => DoPutBack(s, t, usable)
    case Notify(t, w) => DoNotify(s, t, w)
    case Close(t) => DoClose(s, t)
  }

  /** A pool just constructed. */
  ghost predicate Initial(opt: PoolOptions, s: Sys) {
    && 1 <= opt.maxSize && opt.minSize <= opt.maxSize
    && |s.pool.entries| == opt.minSize && s.pool.available == s.pool.entries
    && (forall i, j :: 0 <= i < j < |s.pool.entries| ==> s.pool.entries[i] != s.pool.entries[j])
    && (forall e :: e in s.pool.entries ==> e < s.next && e in s.stamps && s.stamps[e].lastReturnedAt <= s.now)
    && (forall i, j :: 0 <= i < j < |s.pool.entries| ==>
          StampOf(s.stamps, s.pool.entries[i]).lastReturnedAt <= StampOf(s.stamps, s.pool.entries[j]).lastReturnedAt)
    && s.pool.inUse == 0 && s.pool.pending == 0 && !s.pool.closed
    && (forall t :: 0 <= t < |s.threads| ==> s.threads[t].Idle?)
    && s.leases == [] && s.granted == 0 && s.returned == 0 && s.late == 0 && !s.drained
  }

  /** `s` is reached from a pool just constructed by `n` steps. */
  ghost predicate ReachableIn(opt: PoolOptions, s: Sys, n: nat)
    decreases n, 1
  {
    if n == 0 then Initial(opt, s)
    else exists before, step :: Follows(opt, before, step, s, n)
  }

  ghost predicate Follows(opt: PoolOptions, before: Sys, step: Step, s: Sys, n: nat)
    requires n > 0
    decreases n, 0
  {
    ReachableIn(opt, before, n - 1) && Enabled(before, step) && s == Apply(opt, before, step)
  }

  ghost predicate Reachable(opt: PoolOptions, s: Sys) {
    exists n: nat :: ReachableIn(opt, s, n)
  }
}
