/** What single steps of the pool do, said on the lists and clocks alone. */
module PoolLaws {
  import opened Collections
  import opened PoolRegions
  import opened PoolEviction
  import opened PoolProtocol

  // ---------------------------------------------------------------- acquiring

  /** A call begins when its thread leaves Idle for it and ends when the thread is back there. */
  ghost predicate InCall(pc: Pc) {
    pc.Evicting? || pc.Retrying? || pc.Validating? || pc.Creating? || pc.Sleeping? || pc.Woken?
  }

  /** A connection is opened only while none is idle, and only where there is room for it. */
  lemma OpensOnlyWithoutIdle(opt: PoolOptions, s: Sys, step: Step)
    requires Enabled(s, step) && Apply(opt, s, step).pool.pending > s.pool.pending
    ensures s.pool.available == [] && |s.pool.entries| + s.pool.pending < opt.maxSize
    ensures Apply(opt, s, step).pool == s.pool.(pending := s.pool.pending + 1)
    ensures step.Search? && Apply(opt, s, step).threads[step.t].Creating?
  {
    if step.Search? {
      NothingGoneMeansSame(opt, s);
    }
  }

  /** An eviction that takes nothing out changes nothing. */
  lemma NothingGoneMeansSame(opt: PoolOptions, s: Sys)
    ensures Evict(opt, s.now, s.stamps, s.pool).1 == [] ==> Evict(opt, s.now, s.stamps, s.pool).0 == s.pool
  {
    if Evict(opt, s.now, s.stamps, s.pool).1 == [] {
      NothingGone(opt, s.now, s.stamps, s.pool);
    }
  }

  /** The idle entries whose lifetime is over. */
  ghost predicate OverAge(opt: PoolOptions, s: Sys, e: nat) {
    opt.maxLifetime.Some? && s.now - StampOf(s.stamps, e).createdAt >= opt.maxLifetime.value
  }

  /**
    Whoever comes to look, save for a thread back from destroying what it evicted, leaves no idle entry over age; while
    there is one it gets no further than evicting.
   */
  lemma SearchEvicts(opt: PoolOptions, s: Sys, t: nat)
    requires Enabled(s, Search(t)) && !s.threads[t].Evicting? && !(s.threads[t].Idle? && s.pool.closed)
    ensures forall e :: e in Apply(opt, s, Search(t)).pool.available ==> e in s.pool.available && !OverAge(opt, s, e)
    ensures (exists e :: e in s.pool.available && OverAge(opt, s, e)) ==> Apply(opt, s, Search(t)).threads[t].Evicting?
  {
    EvictLeaves(opt, s);
    NothingGoneMeansSame(opt, s);
  }

  lemma EvictLeaves(opt: PoolOptions, s: Sys)
    ensures forall e :: e in Evict(opt, s.now, s.stamps, s.pool).0.available ==>
              e in s.pool.available && !OverAge(opt, s, e)
  {
    ScanByTheClocks(opt, s.now, s.stamps, s.pool.available, |s.pool.entries|);
    ScanKeepsAll(opt, s.now, s.stamps, s.pool.available, |s.pool.entries|);
    var (kept, gone) := Scan(opt, s.now, s.stamps, s.pool.available, |s.pool.entries|);
    forall e | e in kept ensures e in s.pool.available {
      assert e in multiset(kept) + multiset(gone);
    }
  }

  /** Thread `t` looks at the idle queue in this step: it is not refused, and nothing is evicted first. */
  ghost predicate Looks(opt: PoolOptions, s: Sys, t: nat) {
    && Enabled(s, Search(t)) && !(s.threads[t].Idle? && s.pool.closed)
    && (s.threads[t].Evicting? || Evict(opt, s.now, s.stamps, s.pool).1 == [])
  }

  /** With an idle entry, the one idle longest is handed over, after a ping exactly when pings are asked for. */
  lemma FrontIsHandedOver(opt: PoolOptions, s: Sys, t: nat)
    requires Looks(opt, s, t) && s.pool.available != []
    ensures var s' := Apply(opt, s, Search(t));
            && s'.pool == s.pool.(available := s.pool.available[1..], inUse := s.pool.inUse + 1)
            && (opt.validateOnAcquire ==>
                  && s'.threads[t].Validating? && s'.threads[t].entry == s.pool.available[0]
                  && s'.leases == s.leases && s'.granted == s.granted)
            && (!opt.validateOnAcquire ==>
                  && s'.threads[t].Idle? && s'.leases == s.leases + [Some(s.pool.available[0])]
                  && s'.granted == s.granted + 1)
  {
    NothingGoneMeansSame(opt, s);
  }

  /** Without one, and with room for another, a connection is opened. */
  lemma RoomIsUsed(opt: PoolOptions, s: Sys, t: nat)
    requires Looks(opt, s, t) && s.pool.available == [] && |s.pool.entries| + s.pool.pending < opt.maxSize
    ensures var s' := Apply(opt, s, Search(t));
            && s'.pool == s.pool.(pending := s.pool.pending + 1) && s'.leases == s.leases
            && s'.threads[t].Creating?
  {
    NothingGoneMeansSame(opt, s);
  }

  /** Without one, and with no room for another, the thread waits while its deadline is ahead and fails otherwise. */
  lemma FullPoolWaits(opt: PoolOptions, s: Sys, t: nat)
    requires Looks(opt, s, t) && s.pool.available == [] && |s.pool.entries| + s.pool.pending >= opt.maxSize
    ensures var s' := Apply(opt, s, Search(t));
            var deadline := if s.threads[t].Idle? then s.now + opt.acquireTimeout else s.threads[t].call.deadline;
            && s'.pool == s.pool && s'.leases == s.leases
            && (s.now < deadline ==> s'.threads[t].Sleeping?) && (s.now >= deadline ==> s'.threads[t].Idle?)
  {
    NothingGoneMeansSame(opt, s);
  }

  /** A call begins only in an open pool, with its deadline set from the clock, and keeps that deadline to its end. */
  ghost predicate CallGoesOn(before: Pc, after: Pc, closed: bool, deadline: int) {
    InCall(after) ==>
      if InCall(before) then after.call.deadline == before.call.deadline else !closed && after.call.deadline == deadline
  }

  /** So it does in every step, for every thread. */
  lemma CallsGoOn(opt: PoolOptions, s: Sys, step: Step, u: nat)
    requires Enabled(s, step) && u < |s.threads|
    ensures |Apply(opt, s, step).threads| == |s.threads|
    ensures CallGoesOn(s.threads[u], Apply(opt, s, step).threads[u], s.pool.closed, s.now + opt.acquireTimeout)
  {
    match step
    case Tick(_) =>
    case Search(t) => SearchGoesOn(opt, s, t, u);
    case EndWait(t, timedOut) => EndWaitGoesOn(opt, s, t, timedOut, u);
    case Pinged(t, ok) => PingedGoesOn(opt, s, t, ok, u);
    case Opened(t, ok, w) => OpenedGoesOn(opt, s, t, ok, w, u);
    case UseLease(op) => LeaseGoesOn(opt, s, op, u);
    case PutBackEntry(_, _) =>
    case Notify(t, w) => WakeGoesOn(s.threads[t := Idle], w, u, s.pool.closed, s.now + opt.acquireTimeout);
    case Close(_) =>
  }

  lemma DecisionKeepsCall(opt: PoolOptions, s: Sys, t: nat, call: Call)
    requires t < |s.threads|
    ensures var s' := DecideStep(opt, s, t, call);
            && |s'.threads| == |s.threads|
            && (forall u :: 0 <= u < |s.threads| && u != t ==> s'.threads[u] == s.threads[u])
            && (InCall(s'.threads[t]) ==> s'.threads[t].call == call)
  {
  }

  lemma SearchGoesOn(opt: PoolOptions, s: Sys, t: nat, u: nat)
    requires Enabled(s, Search(t)) && u < |s.threads|
    ensures |DoSearch(opt, s, t).threads| == |s.threads|
    ensures CallGoesOn(s.threads[u], DoSearch(opt, s, t).threads[u], s.pool.closed, s.now + opt.acquireTimeout)
  {
    DecisionKeepsCall(opt, s, t, CallOf(opt, s, t));
  }

  lemma EndWaitGoesOn(opt: PoolOptions, s: Sys, t: nat, timedOut: bool, u: nat)
    requires Enabled(s, EndWait(t, timedOut)) && u < |s.threads|
    ensures |DoEndWait(s, t, timedOut).threads| == |s.threads|
    ensures CallGoesOn(s.threads[u], DoEndWait(s, t, timedOut).threads[u], s.pool.closed, s.now + opt.acquireTimeout)
  {
  }

  lemma PingedGoesOn(opt: PoolOptions, s: Sys, t: nat, ok: bool, u: nat)
    requires Enabled(s, Pinged(t, ok)) && u < |s.threads|
    ensures |DoPinged(s, t, ok).threads| == |s.threads|
    ensures CallGoesOn(s.threads[u], DoPinged(s, t, ok).threads[u], s.pool.closed, s.now + opt.acquireTimeout)
  {
  }

  lemma OpenedGoesOn(opt: PoolOptions, s: Sys, t: nat, ok: bool, woken: Option<nat>, u: nat)
    requires Enabled(s, Opened(t, ok, woken)) && u < |s.threads|
    ensures |DoOpened(s, t, ok, woken).threads| == |s.threads|
    ensures CallGoesOn(s.threads[u], DoOpened(s, t, ok, woken).threads[u], s.pool.closed, s.now + opt.acquireTimeout)
  {
    if !ok {
      WakeGoesOn(s.threads[t := Idle], woken, u, s.pool.closed, s.now + opt.acquireTimeout);
    }
  }

  lemma LeaseGoesOn(opt: PoolOptions, s: Sys, op: LeaseOp, u: nat)
    requires LeaseEnabled(s, op) && u < |s.threads|
    ensures |DoLease(s, op).threads| == |s.threads|
    ensures CallGoesOn(s.threads[u], DoLease(s, op).threads[u], s.pool.closed, s.now + opt.acquireTimeout)
  {
  }

  lemma WakeGoesOn(threads: seq<Pc>, woken: Option<nat>, u: nat, closed: bool, deadline: int)
    requires u < |threads|
    ensures |Wake(threads, woken)| == |threads|
    ensures CallGoesOn(threads[u], Wake(threads, woken)[u], closed, deadline)
  {
  }

  /** A call ends empty-handed only at or past its deadline, or because its connection could not be opened. */
  lemma EmptyHandedOnlyWhenDue(opt: PoolOptions, s: Sys, step: Step, u: nat)
    requires Enabled(s, step) && u < |s.threads| && InCall(s.threads[u])
    ensures |Apply(opt, s, step).threads| == |s.threads|
    ensures InCall(Apply(opt, s, step).threads[u])
            || s.now >= s.threads[u].call.deadline
            || (step.Opened? && step.t == u && !step.ok)
            || (Apply(opt, s, step).granted == s.granted + 1
                && |Apply(opt, s, step).leases| == |s.leases| + 1 && Apply(opt, s, step).leases[|s.leases|].Some?)
  {
    CallsGoOn(opt, s, step, u);
    match step
    case Opened(t, ok, w) =>
      if !ok {
        WakeGoesOn(s.threads[t := Idle], w, u, s.pool.closed, 0);
      }
    case Notify(t, w) =>
    case _ =>
  }

  /** A closed pool refuses whoever comes, and nothing is touched. */
  lemma ClosedPoolRefuses(opt: PoolOptions, s: Sys, t: nat)
    requires Enabled(s, Search(t)) && s.pool.closed && s.threads[t].Idle?
    ensures Apply(opt, s, Search(t)) == s
  {
  }

  /** A good ping leases the entry it was sent to; a failed one leases nothing and the entry leaves the pool. */
  lemma PingDecides(opt: PoolOptions, s: Sys, t: nat, ok: bool)
    requires Enabled(s, Pinged(t, ok))
    requires multiset(s.pool.entries)[s.threads[t].entry] <= 1
    ensures var s', e := Apply(opt, s, Pinged(t, ok)), s.threads[t].entry;
            && (ok ==> s'.pool == s.pool && s'.leases == s.leases + [Some(e)] && s'.threads[t].Idle?)
            && (!ok ==> e !in s'.pool.entries && s'.leases == s.leases && s'.threads[t].Retrying?
                        && s'.pool.available == s.pool.available)
  {
    var e := s.threads[t].entry;
    ExtractCounts<nat>(s.pool.entries, e);
    assert multiset(Extract<nat>(s.pool.entries, e))[e] == 0;
    assert e in Extract<nat>(s.pool.entries, e) ==> e in multiset(Extract<nat>(s.pool.entries, e));
  }

  // ---------------------------------------------------------------- returning

  /** An entry put back joins the end of the idle queue, unless the pool is closed or it is unusable: it is gone. */
  lemma ReturnDecides(opt: PoolOptions, s: Sys, t: nat, usable: bool)
    requires Enabled(s, PutBackEntry(t, usable))
    requires multiset(s.pool.entries)[s.threads[t].entry] <= 1
    ensures var s', e := Apply(opt, s, PutBackEntry(t, usable)), s.threads[t].entry;
            && s'.pool.inUse == s.pool.inUse - 1
            && (usable && !s.pool.closed ==>
                  && s'.pool.available == s.pool.available + [e] && s'.pool.entries == s.pool.entries
                  && e in s'.stamps && s'.stamps[e].lastReturnedAt == s.now
                  && s'.stamps[e].createdAt == StampOf(s.stamps, e).createdAt)
            && (!usable || s.pool.closed ==>
                  && s'.pool.available == s.pool.available && e !in s'.pool.entries && s'.stamps == s.stamps)
  {
    var e := s.threads[t].entry;
    ExtractCounts<nat>(s.pool.entries, e);
    assert multiset(Extract<nat>(s.pool.entries, e))[e] == 0;
    assert e in Extract<nat>(s.pool.entries, e) ==> e in multiset(Extract<nat>(s.pool.entries, e));
  }

  // ---------------------------------------------------------------- waiting and closing

  /** Only a wait that was notified and nevertheless times out counts as late. */
  lemma LateTimeouts(opt: PoolOptions, s: Sys, step: Step)
    requires Enabled(s, step)
    ensures Apply(opt, s, step).late
         == s.late + if step.EndWait? && step.timedOut && s.threads[step.t].Woken? && s.threads[step.t].notified then 1
                     else 0
  {
  }

  /** Each region of close() leaves the pool closed; it drops the front of the queue, or returns once that is empty. */
  lemma CloseDrains(opt: PoolOptions, s: Sys, t: nat)
    requires Enabled(s, Close(t)) && (s.threads[t].Draining? ==> s.pool.closed)
    requires forall e :: multiset(s.pool.entries)[e] <= 1
    ensures var s' := Apply(opt, s, Close(t));
            && s'.pool.closed && s'.leases == s.leases
            && (s.pool.available == [] ==>
                  s'.pool == s.pool.(closed := true) && s'.threads[t].Idle? && s'.drained)
            && (s.pool.available != [] ==>
                  && s'.pool.available == s.pool.available[1..] && s.pool.available[0] !in s'.pool.entries
                  && s'.threads[t].Draining? && s'.drained == s.drained)
  {
    if s.pool.available != [] {
      var e := s.pool.available[0];
      ExtractCounts<nat>(s.pool.entries, e);
      assert multiset(Extract<nat>(s.pool.entries, e))[e] == 0;
      assert e in Extract<nat>(s.pool.entries, e) ==> e in multiset(Extract<nat>(s.pool.entries, e));
    }
  }

  // ---------------------------------------------------------------- moving leases

  /** Move construction carries the lease over and empties its source. */
  lemma MoveCarries(opt: PoolOptions, s: Sys, src: nat)
    requires Enabled(s, UseLease(MoveOut(src)))
    ensures var s' := Apply(opt, s, UseLease(MoveOut(src)));
            && |s'.leases| == |s.leases| + 1 && s'.leases[|s.leases|] == s.leases[src] && s'.leases[src].None?
            && forall l :: 0 <= l < |s.leases| && l != src ==> s'.leases[l] == s.leases[l]
  {
  }

  /** After a move assignment the target holds what the source held, and the source nothing; nobody else is touched. */
  ghost predicate Moved(before: seq<Option<nat>>, after: seq<Option<nat>>, dst: nat, src: nat) {
    && dst < |before| == |after| && src < |before|
    && after[dst] == before[src] && (dst != src ==> after[src].None?)
    && forall l :: 0 <= l < |before| && l != dst && l != src ==> after[l] == before[l]
  }

  /** It takes effect at once into an empty target or itself, and with the notification once a full one is put back. */
  lemma AssignmentMoves(opt: PoolOptions, s: Sys, step: Step, t: nat, dst: nat, src: nat)
    requires Enabled(s, step) && dst < |s.leases| && src < |s.leases|
    ensures step == UseLease(Assign(t, dst, src)) && (dst == src || s.leases[dst].None?) ==>
              Moved(s.leases, Apply(opt, s, step).leases, dst, src)
    ensures step == UseLease(Assign(t, dst, src)) && dst != src && s.leases[dst].Some? ==>
              && Apply(opt, s, step).threads[t] == Releasing(s.leases[dst].value, MoveInto(dst, src))
              && Apply(opt, s, step).leases == s.leases[dst := None]
    ensures step.Notify? && step.t == t && dst != src && s.threads[t].after == MoveInto(dst, src) ==>
              Moved(s.leases, Apply(opt, s, step).leases, dst, src)
  {
  }
}
