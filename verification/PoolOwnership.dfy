/** Conservation, exclusive ownership and capacity of the pool, over every interleaving. */
module PoolOwnership {
  import opened Collections
  import opened PoolRegions
  import opened PoolEviction
  import opened PoolProtocol

  // ---------------------------------------------------------------- who holds what

  ghost predicate Holds(pc: Pc, e: nat) { (pc.Validating? || pc.Releasing?) && pc.entry == e }

  ghost function InThreads(threads: seq<Pc>, e: nat): nat {
    if threads == [] then 0 else (if Holds(threads[0], e) then 1 else 0) + InThreads(threads[1..], e)
  }

  ghost function InLeases(leases: seq<Option<nat>>, e: nat): nat {
    if leases == [] then 0 else (if leases[0] == Some(e) then 1 else 0) + InLeases(leases[1..], e)
  }

  ghost function Valid(l: Option<nat>): nat { if l.Some? then 1 else 0 }
  ghost function Validators(pc: Pc): nat { if pc.Validating? then 1 else 0 }
  ghost function Releasers(pc: Pc): nat { if pc.Releasing? then 1 else 0 }
  ghost function Creators(pc: Pc): nat { if pc.Creating? then 1 else 0 }

  /** In how many places entry `e` is: the idle queue, valid leases, validating threads, releasing threads. */
  ghost function Places(s: Sys, e: nat): nat {
    multiset(s.pool.available)[e] + InLeases(s.leases, e) + InThreads(s.threads, e)
  }

  ghost predicate ExactlyOnePlace(s: Sys) {
    forall e: nat :: Places(s, e) == multiset(s.pool.entries)[e] <= 1
  }

  ghost predicate Conserved(opt: PoolOptions, s: Sys) {
    && |s.pool.entries| == |s.pool.available| + s.pool.inUse
    && s.pool.inUse == Sum(s.leases, Valid) + Sum(s.threads, Validators) + Sum(s.threads, Releasers)
    && s.pool.pending == Sum(s.threads, Creators)
    && |s.pool.entries| + s.pool.pending <= opt.maxSize
    && s.granted == s.returned + Sum(s.leases, Valid) + Sum(s.threads, Releasers)
  }

  ghost predicate Fresh(s: Sys) { forall e :: e in s.pool.entries ==> e < s.next }

  ghost predicate Ledger(opt: PoolOptions, s: Sys) {
    ExactlyOnePlace(s) && Conserved(opt, s) && Fresh(s)
  }

  // ---------------------------------------------------------------- counting across one change

  lemma {:induction false} InThreadsUpdate(threads: seq<Pc>, t: nat, pc: Pc, e: nat)
    requires t < |threads|
    ensures InThreads(threads[t := pc], e) + (if Holds(threads[t], e) then 1 else 0)
         == InThreads(threads, e) + (if Holds(pc, e) then 1 else 0)
  {
    if t == 0 {
      assert threads[t := pc][1..] == threads[1..];
    } else {
      assert threads[t := pc][1..] == threads[1..][t - 1 := pc];
      InThreadsUpdate(threads[1..], t - 1, pc, e);
    }
  }

  lemma {:induction false} InLeasesUpdate(leases: seq<Option<nat>>, l: nat, x: Option<nat>, e: nat)
    requires l < |leases|
    ensures InLeases(leases[l := x], e) + (if leases[l] == Some(e) then 1 else 0)
         == InLeases(leases, e) + (if x == Some(e) then 1 else 0)
  {
    if l == 0 {
      assert leases[l := x][1..] == leases[1..];
    } else {
      assert leases[l := x][1..] == leases[1..][l - 1 := x];
      InLeasesUpdate(leases[1..], l - 1, x, e);
    }
  }

  lemma {:induction false} InLeasesAppend(leases: seq<Option<nat>>, x: Option<nat>, e: nat)
    ensures InLeases(leases + [x], e) == InLeases(leases, e) + (if x == Some(e) then 1 else 0)
  {
    if leases == [] {
      assert leases + [x] == [x];
    } else {
      assert (leases + [x])[1..] == leases[1..] + [x];
      InLeasesAppend(leases[1..], x, e);
    }
  }

  /** Effect of one program-counter change on everything counted over threads. */
  lemma Moves(threads: seq<Pc>, t: nat, pc: Pc)
    requires t < |threads|
    ensures forall e: nat :: InThreads(threads[t := pc], e) + (if Holds(threads[t], e) then 1 else 0)
                          == InThreads(threads, e) + (if Holds(pc, e) then 1 else 0)
    ensures Sum(threads[t := pc], Validators) + Validators(threads[t]) == Sum(threads, Validators) + Validators(pc)
    ensures Sum(threads[t := pc], Releasers) + Releasers(threads[t]) == Sum(threads, Releasers) + Releasers(pc)
    ensures Sum(threads[t := pc], Creators) + Creators(threads[t]) == Sum(threads, Creators) + Creators(pc)
  {
    forall e: nat ensures InThreads(threads[t := pc], e) + (if Holds(threads[t], e) then 1 else 0)
                       == InThreads(threads, e) + (if Holds(pc, e) then 1 else 0)
    {
      InThreadsUpdate(threads, t, pc, e);
    }
    SumUpdate(threads, Validators, t, pc);
    SumUpdate(threads, Releasers, t, pc);
    SumUpdate(threads, Creators, t, pc);
  }

  lemma LeaseChanges(leases: seq<Option<nat>>, l: nat, x: Option<nat>)
    requires l < |leases|
    ensures forall e: nat :: InLeases(leases[l := x], e) + (if leases[l] == Some(e) then 1 else 0)
                          == InLeases(leases, e) + (if x == Some(e) then 1 else 0)
    ensures Sum(leases[l := x], Valid) + Valid(leases[l]) == Sum(leases, Valid) + Valid(x)
  {
    forall e: nat ensures InLeases(leases[l := x], e) + (if leases[l] == Some(e) then 1 else 0)
                       == InLeases(leases, e) + (if x == Some(e) then 1 else 0)
    {
      InLeasesUpdate(leases, l, x, e);
    }
    SumUpdate(leases, Valid, l, x);
  }

  lemma LeaseAppears(leases: seq<Option<nat>>, x: Option<nat>)
    ensures forall e: nat :: InLeases(leases + [x], e) == InLeases(leases, e) + (if x == Some(e) then 1 else 0)
    ensures Sum(leases + [x], Valid) == Sum(leases, Valid) + Valid(x)
  {
    forall e: nat ensures InLeases(leases + [x], e) == InLeases(leases, e) + (if x == Some(e) then 1 else 0) {
      InLeasesAppend(leases, x, e);
    }
    SumAppend(leases, Valid, x);
  }

  /** Waking a sleeper changes nothing that is counted here. */
  lemma WakeKeeps(threads: seq<Pc>, woken: Option<nat>)
    ensures |Wake(threads, woken)| == |threads|
    ensures forall e: nat :: InThreads(Wake(threads, woken), e) == InThreads(threads, e)
    ensures Sum(Wake(threads, woken), Validators) == Sum(threads, Validators)
    ensures Sum(Wake(threads, woken), Releasers) == Sum(threads, Releasers)
    ensures Sum(Wake(threads, woken), Creators) == Sum(threads, Creators)
  {
    if Wake(threads, woken) != threads {
      Moves(threads, woken.value, Woken(threads[woken.value].call, true));
    }
  }

  lemma {:induction false} HeldIsPlaced(threads: seq<Pc>, t: nat)
    requires t < |threads| && (threads[t].Validating? || threads[t].Releasing?)
    ensures InThreads(threads, threads[t].entry) >= 1
  {
    if t > 0 {
      HeldIsPlaced(threads[1..], t - 1);
    }
  }

  lemma {:induction false} ExtractedCount(entries: seq<nat>, e: nat, x: nat)
    requires e in entries
    ensures multiset(entries)[x] == multiset(Extract<nat>(entries, e))[x] + (if x == e then 1 else 0)
  {
    HeadCounted(entries);
    if entries[0] != e {
      ExtractedCount(entries[1..], e, x);
      HeadCounted(Extract<nat>(entries, e));
      assert Extract<nat>(entries, e)[1..] == Extract<nat>(entries[1..], e);
    }
  }

  lemma Extracted(entries: seq<nat>, e: nat)
    requires e in entries
    ensures |Extract<nat>(entries, e)| == |entries| - 1
    ensures forall x: nat :: multiset(entries)[x] == multiset(Extract<nat>(entries, e))[x] + (if x == e then 1 else 0)
    ensures forall x :: x in Extract<nat>(entries, e) ==> x in entries
  {
    ExtractKeepsOthers<nat>(entries, e);
    forall x: nat ensures multiset(entries)[x] == multiset(Extract<nat>(entries, e))[x] + (if x == e then 1 else 0) {
      ExtractedCount(entries, e, x);
    }
  }

  lemma HeadCounted(queue: seq<nat>)
    requires queue != []
    ensures forall x: nat :: multiset(queue)[x] == multiset(queue[1..])[x] + (if x == queue[0] then 1 else 0)
  {
    assert queue == [queue[0]] + queue[1..];
  }

  lemma TailCounted(queue: seq<nat>, e: nat)
    ensures forall x: nat :: multiset(queue + [e])[x] == multiset(queue)[x] + (if x == e then 1 else 0)
  {
  }

  // ---------------------------------------------------------------- the ledger, region by region

  /** Holding nothing and counted nowhere. */
  ghost predicate Empty(pc: Pc) {
    !(pc.Validating? || pc.Releasing? || pc.Creating?)
  }

  /** The head of the idle queue goes to thread `t` for validation. */
  lemma TakeLedger(opt: PoolOptions, s: Sys, t: nat, call: Call)
    requires Ledger(opt, s) && t < |s.threads| && Empty(s.threads[t]) && s.pool.available != []
    ensures Ledger(opt, At(s.(pool := Take(s.pool)), t, Validating(call, s.pool.available[0])))
  {
    var e := s.pool.available[0];
    var s' := At(s.(pool := Take(s.pool)), t, Validating(call, e));
    Moves(s.threads, t, Validating(call, e));
    HeadCounted(s.pool.available);
    assert ExactlyOnePlace(s') by {
      forall x: nat ensures Places(s', x) == multiset(s'.pool.entries)[x] <= 1 {
        assert Places(s', x) == Places(s, x);
      }
    }
  }

  lemma TakeAndGrantLedger(opt: PoolOptions, s: Sys, t: nat)
    requires Ledger(opt, s) && t < |s.threads| && Empty(s.threads[t]) && s.pool.available != []
    ensures Ledger(opt, Grant(s.(pool := Take(s.pool)), t, s.pool.available[0]))
  {
    var call := Call(0);
    TakeLedger(opt, s, t, call);
    var mid := At(s.(pool := Take(s.pool)), t, Validating(call, s.pool.available[0]));
    PingLedger(opt, mid, t);
    assert mid.threads[t := Idle] == s.threads[t := Idle];
  }

  lemma DecideLedger(opt: PoolOptions, s: Sys, t: nat, call: Call)
    requires Ledger(opt, s) && t < |s.threads| && Empty(s.threads[t])
    ensures Ledger(opt, DecideStep(opt, s, t, call))
  {
    match Decide(opt, s.pool, call.deadline <= s.now)
    case TakeIdle =>
      if opt.validateOnAcquire {
        TakeLedger(opt, s, t, call);
      } else {
        TakeAndGrantLedger(opt, s, t);
      }
    case Create => Moves(s.threads, t, Creating(call));
    case GiveUp => Moves(s.threads, t, Idle);
    case Wait => Moves(s.threads, t, Sleeping(call));
  }

  lemma EvictCounts(opt: PoolOptions, s: Sys)
    requires ExactlyOnePlace(s)
    ensures var p := Evict(opt, s.now, s.stamps, s.pool).0;
            && |s.pool.entries| - |p.entries| == |s.pool.available| - |p.available| >= 0
            && (forall x: nat :: && multiset(p.entries)[x] <= multiset(s.pool.entries)[x]
                                 && multiset(s.pool.entries)[x] + multiset(p.available)[x]
                                 == multiset(p.entries)[x] + multiset(s.pool.available)[x])
  {
    var (p, gone) := Evict(opt, s.now, s.stamps, s.pool);
    forall e: nat ensures multiset(s.pool.available)[e] <= multiset(s.pool.entries)[e] {
      assert Places(s, e) == multiset(s.pool.entries)[e];
    }
    EvictsExpired(opt, s.now, s.stamps, s.pool);
    SplitSizes(s.pool.entries, p.entries, gone);
    SplitSizes(s.pool.available, p.available, gone);
  }

  lemma EvictLedger(opt: PoolOptions, s: Sys, t: nat, call: Call)
    requires Ledger(opt, s) && t < |s.threads| && Empty(s.threads[t])
    ensures Ledger(opt, At(s.(pool := Evict(opt, s.now, s.stamps, s.pool).0), t, Evicting(call)))
  {
    EvictCounts(opt, s);
    PruneLedger(opt, s, t, Evicting(call), Evict(opt, s.now, s.stamps, s.pool).0);
  }

  /** The same entries disappear from the idle queue and from the pool. */
  lemma PruneLedger(opt: PoolOptions, s: Sys, t: nat, pc: Pc, p: Pool<nat>)
    requires Ledger(opt, s) && t < |s.threads| && Empty(s.threads[t]) && Empty(pc)
    requires p.inUse == s.pool.inUse && p.pending == s.pool.pending
    requires |s.pool.entries| - |p.entries| == |s.pool.available| - |p.available| >= 0
    requires forall x: nat :: && multiset(p.entries)[x] <= multiset(s.pool.entries)[x]
                              && multiset(s.pool.entries)[x] + multiset(p.available)[x]
                              == multiset(p.entries)[x] + multiset(s.pool.available)[x]
    ensures Ledger(opt, At(s.(pool := p), t, pc))
  {
    var s' := At(s.(pool := p), t, pc);
    Moves(s.threads, t, pc);
    assert ExactlyOnePlace(s') by {
      forall x: nat ensures Places(s', x) == multiset(p.entries)[x] <= 1 {
        assert Places(s, x) == multiset(s.pool.entries)[x] <= 1;
      }
    }
    forall x | x in p.entries ensures x < s.next {
      assert x in multiset(p.entries);
      assert multiset(s.pool.entries)[x] > 0;
      assert x in s.pool.entries;
    }
  }

  lemma DrainCounts(s: Sys)
    requires ExactlyOnePlace(s) && s.pool.available != []
    ensures var p := DrainOne(s.pool);
            && |s.pool.entries| - |p.entries| == |s.pool.available| - |p.available| == 1
            && (forall x: nat :: && multiset(p.entries)[x] <= multiset(s.pool.entries)[x]
                                 && multiset(s.pool.entries)[x] + multiset(p.available)[x]
                                 == multiset(p.entries)[x] + multiset(s.pool.available)[x])
  {
    var e := s.pool.available[0];
    HeadCounted(s.pool.available);
    assert Places(s, e) == multiset(s.pool.entries)[e];
    Extracted(s.pool.entries, e);
  }

  lemma DrainLedger(opt: PoolOptions, s: Sys, t: nat)
    requires Ledger(opt, s) && t < |s.threads| && Empty(s.threads[t])
    ensures Ledger(opt, DrainStep(s, t))
  {
    if s.pool.available == [] {
      Moves(s.threads, t, Idle);
    } else {
      var p := DrainOne(s.pool);
      DrainCounts(s);
      PruneLedger(opt, s, t, Draining, p);
    }
  }

  lemma PingLedger(opt: PoolOptions, s: Sys, t: nat)
    requires Ledger(opt, s) && t < |s.threads| && s.threads[t].Validating?
    ensures Ledger(opt, Grant(s, t, s.threads[t].entry))
  {
    Moves(s.threads, t, Idle);
    LeaseAppears(s.leases, Some(s.threads[t].entry));
  }

  /** Thread `t` gives up an entry that leaves the pool for good. */
  lemma DiscardLedger(opt: PoolOptions, s: Sys, t: nat, pc: Pc, returned: nat)
    requires Ledger(opt, s) && t < |s.threads| && (s.threads[t].Validating? || s.threads[t].Releasing?) && Empty(pc)
    requires returned == s.returned + Releasers(s.threads[t])
    ensures Ledger(opt, At(s.(pool := Discard(s.pool, s.threads[t].entry)), t, pc).(returned := returned))
  {
    var e := s.threads[t].entry;
    var s' := At(s.(pool := Discard(s.pool, e)), t, pc).(returned := returned);
    Moves(s.threads, t, pc);
    HeldIsPlaced(s.threads, t);
    assert Places(s, e) == multiset(s.pool.entries)[e];
    Extracted(s.pool.entries, e);
    forall x: nat ensures Places(s', x) == multiset(s'.pool.entries)[x] <= 1 {
      assert Places(s, x) == multiset(s.pool.entries)[x] <= 1;
      assert Places(s', x) == Places(s, x) - (if x == e then 1 else 0);
    }
    assert Fresh(s');
  }

  lemma ConnectedLedger(opt: PoolOptions, s: Sys, t: nat)
    requires Ledger(opt, s) && t < |s.threads| && s.threads[t].Creating?
    ensures Ledger(opt, Connected(s, t))
  {
    var s' := Connected(s, t);
    Moves(s.threads, t, Idle);
    LeaseAppears(s.leases, Some(s.next));
    TailCounted(s.pool.entries, s.next);
    assert s.next !in s.pool.entries;
    forall e: nat ensures Places(s', e) == multiset(s'.pool.entries)[e] <= 1 {
      assert Places(s, e) == multiset(s.pool.entries)[e] <= 1;
      assert Places(s', e) == Places(s, e) + (if e == s.next then 1 else 0);
    }
  }

  lemma FailedLedger(opt: PoolOptions, s: Sys, t: nat, woken: Option<nat>)
    requires Ledger(opt, s) && t < |s.threads| && s.threads[t].Creating?
    ensures Ledger(opt, Failed(s, t, woken))
  {
    Moves(s.threads, t, Idle);
    WakeKeeps(s.threads[t := Idle], woken);
  }

  lemma OpenedLedger(opt: PoolOptions, s: Sys, t: nat, ok: bool, woken: Option<nat>)
    requires Ledger(opt, s) && Enabled(s, Opened(t, ok, woken))
    ensures Ledger(opt, DoOpened(s, t, ok, woken))
  {
    if ok {
      ConnectedLedger(opt, s, t);
    } else {
      FailedLedger(opt, s, t, woken);
    }
  }

  /** Lease `l` gives its entry to thread `t`, which is about to put it back. */
  lemma DropLedger(opt: PoolOptions, s: Sys, t: nat, l: nat, after: After)
    requires Ledger(opt, s) && t < |s.threads| && s.threads[t].Idle? && l < |s.leases| && s.leases[l].Some?
    ensures Ledger(opt, DropInto(s, t, l, after))
  {
    Moves(s.threads, t, Releasing(s.leases[l].value, after));
    LeaseChanges(s.leases, l, None);
  }

  lemma FinishMoveLedger(opt: PoolOptions, s: Sys, a: After)
    requires Ledger(opt, s)
    requires a.MoveInto? ==> a.dst < |s.leases| && a.src < |s.leases| && a.dst != a.src && s.leases[a.dst].None?
    ensures Ledger(opt, s.(leases := FinishMove(s.leases, a)))
  {
    if a.MoveInto? {
      LeaseChanges(s.leases, a.dst, s.leases[a.src]);
      LeaseChanges(s.leases[a.dst := s.leases[a.src]], a.src, None);
    }
  }

  lemma LeaseLedger(opt: PoolOptions, s: Sys, op: LeaseOp)
    requires Ledger(opt, s) && LeaseEnabled(s, op)
    ensures Ledger(opt, DoLease(s, op))
  {
    match op
    case MoveOut(src) =>
      LeaseChanges(s.leases, src, None);
      LeaseAppears(s.leases[src := None], s.leases[src]);
    case Drop(t, l) =>
      if s.leases[l].Some? {
        DropLedger(opt, s, t, l, Nothing);
      }
    case Assign(t, dst, src) =>
      if dst != src && s.leases[dst].Some? {
        DropLedger(opt, s, t, dst, MoveInto(dst, src));
      } else if dst != src {
        FinishMoveLedger(opt, s, MoveInto(dst, src));
      }
  }

  lemma ReturnLedger(opt: PoolOptions, s: Sys, t: nat, p: Pool<nat>, stamps: map<nat, Stamp>)
    requires Ledger(opt, s) && t < |s.threads| && s.threads[t].Releasing?
    requires p.entries == s.pool.entries && p.available == s.pool.available + [s.threads[t].entry]
    requires p.inUse == s.pool.inUse - 1 && p.pending == s.pool.pending
    ensures Ledger(opt, At(s.(pool := p, stamps := stamps), t, Notifying(s.threads[t].after))
                          .(returned := s.returned + 1))
  {
    Moves(s.threads, t, Notifying(s.threads[t].after));
    TailCounted(s.pool.available, s.threads[t].entry);
  }

  lemma PutBackLedger(opt: PoolOptions, s: Sys, t: nat, usable: bool)
    requires Ledger(opt, s) && Enabled(s, PutBackEntry(t, usable))
    ensures Ledger(opt, DoPutBack(s, t, usable))
  {
    if s.pool.closed || !usable {
      DiscardLedger(opt, s, t, Notifying(s.threads[t].after), s.returned + 1);
    } else {
      var e := s.threads[t].entry;
      ReturnLedger(opt, s, t, PutBack(s.pool, e, usable), Restamp(s.pool, s.stamps, e, usable, s.now));
    }
  }

  lemma NotifyLedger(opt: PoolOptions, s: Sys, t: nat, woken: Option<nat>)
    requires Ledger(opt, s) && Enabled(s, Notify(t, woken)) && TargetReady(s, t)
    ensures Ledger(opt, DoNotify(s, t, woken))
  {
    Moves(s.threads, t, Idle);
    WakeKeeps(s.threads[t := Idle], woken);
    FinishMoveLedger(opt, s, s.threads[t].after);
  }

  // ---------------------------------------------------------------- unfinished move assignments

  /** The target of an unfinished move assignment is an empty lease. */
  ghost predicate TargetReady(s: Sys, t: nat) {
    t < |s.threads| && HasAfter(s.threads[t]) && s.threads[t].after.MoveInto? ==>
      var a := s.threads[t].after;
      && a.dst < |s.leases| && a.src < |s.leases| && a.dst != a.src
      && s.leases[a.dst].None?
  }

  /** What two different threads are moving never overlaps. */
  ghost predicate Disjoint(s: Sys, t: nat, u: nat) {
    (&& t < |s.threads| && HasAfter(s.threads[t]) && s.threads[t].after.MoveInto?
     && u < |s.threads| && HasAfter(s.threads[u]) && s.threads[u].after.MoveInto?) ==>
      var a, b := s.threads[t].after, s.threads[u].after;
      a.dst != b.dst && a.dst != b.src && a.src != b.dst && a.src != b.src
  }

  ghost predicate Orderly(s: Sys) {
    && (forall t: nat :: TargetReady(s, t))
    && (forall t: nat, u: nat :: t != u ==> Disjoint(s, t, u))
  }

  /** Nothing new is being moved, and targets are still empty. */
  lemma OrderlyKept(s: Sys, s': Sys)
    requires Orderly(s) && |s'.leases| >= |s.leases| && |s'.threads| == |s.threads|
    requires forall t: nat :: t < |s'.threads| && HasAfter(s'.threads[t]) && s'.threads[t].after.MoveInto? ==>
               && HasAfter(s.threads[t]) && s.threads[t].after == s'.threads[t].after
               && (s.threads[t].after.dst < |s.leases| ==> s'.leases[s.threads[t].after.dst].None?)
    ensures Orderly(s')
  {
    forall t: nat ensures TargetReady(s', t) {
      assert TargetReady(s, t);
    }
    forall t: nat, u: nat | t != u ensures Disjoint(s', t, u) {
      assert Disjoint(s, t, u);
    }
  }

  /** Leases only grow at the end, and no thread enters a release. */
  lemma OrderlyAt(s: Sys, s': Sys, t: nat, pc: Pc)
    requires Orderly(s) && t < |s.threads| && s'.threads == s.threads[t := pc]
    requires HasAfter(pc) ==> HasAfter(s.threads[t]) && pc.after == s.threads[t].after
    requires |s.leases| <= |s'.leases| && forall l :: 0 <= l < |s.leases| ==> s'.leases[l] == s.leases[l]
    ensures Orderly(s')
  {
    forall u: nat | u < |s'.threads| && HasAfter(s'.threads[u]) && s'.threads[u].after.MoveInto?
      ensures && HasAfter(s.threads[u]) && s.threads[u].after == s'.threads[u].after
              && (s.threads[u].after.dst < |s.leases| ==> s'.leases[s.threads[u].after.dst].None?)
    {
      assert TargetReady(s, u);
    }
    OrderlyKept(s, s');
  }

  lemma WakeOrderly(s: Sys, woken: Option<nat>)
    requires Orderly(s)
    ensures Orderly(s.(threads := Wake(s.threads, woken)))
  {
    if Wake(s.threads, woken) != s.threads {
      var w := woken.value;
      OrderlyAt(s, s.(threads := Wake(s.threads, woken)), w, Woken(s.threads[w].call, true));
    }
  }

  lemma DecideOrderly(opt: PoolOptions, s: Sys, t: nat, call: Call)
    requires Orderly(s) && t < |s.threads|
    ensures Orderly(DecideStep(opt, s, t, call))
  {
    var s' := DecideStep(opt, s, t, call);
    match Decide(opt, s.pool, call.deadline <= s.now)
    case TakeIdle => OrderlyAt(s, s', t, s'.threads[t]);
    case Create => OrderlyAt(s, s', t, Creating(call));
    case GiveUp => OrderlyAt(s, s', t, Idle);
    case Wait => OrderlyAt(s, s', t, Sleeping(call));
  }

  lemma LoopOrderly(opt: PoolOptions, s: Sys, t: nat, call: Call)
    requires Orderly(s) && t < |s.threads|
    ensures Orderly(LoopTop(opt, s, t, call))
  {
    var p := Evict(opt, s.now, s.stamps, s.pool).0;
    OrderlyAt(s, At(s.(pool := p), t, Evicting(call)), t, Evicting(call));
    DecideOrderly(opt, s, t, call);
  }

  /** Emptying a lease, or filling one that no thread is moving into, disturbs no unfinished move. */
  lemma LeasesOrderly(s: Sys, leases: seq<Option<nat>>)
    requires Orderly(s) && |leases| >= |s.leases|
    requires forall l :: 0 <= l < |s.leases| && leases[l] != s.leases[l] ==> leases[l].None? || !Busy(s, l)
    ensures Orderly(s.(leases := leases))
  {
    forall u: nat | u < |s.threads| && HasAfter(s.threads[u]) && s.threads[u].after.MoveInto?
      ensures s.threads[u].after.dst < |s.leases| ==> leases[s.threads[u].after.dst].None?
    {
      assert TargetReady(s, u);
      var d := s.threads[u].after.dst;
      assert Busy(s, d);
    }
    OrderlyKept(s, s.(leases := leases));
  }

  /** A thread starts `dst = std::move(src)`; nobody else is moving either lease. */
  lemma StartMoveOrderly(s: Sys, t: nat, e: nat, dst: nat, src: nat)
    requires Orderly(s) && t < |s.threads| && s.threads[t].Idle?
    requires dst < |s.leases| && src < |s.leases| && dst != src && s.leases[dst].None?
    requires !Busy(s, dst) && !Busy(s, src)
    ensures Orderly(At(s, t, Releasing(e, MoveInto(dst, src))))
  {
    var s' := At(s, t, Releasing(e, MoveInto(dst, src)));
    forall u: nat ensures TargetReady(s', u) {
      assert TargetReady(s, u);
    }
    forall u: nat, v: nat | u != v ensures Disjoint(s', u, v) {
      assert Disjoint(s, u, v);
    }
  }

  lemma FinishMoveOrderly(s: Sys, t: nat)
    requires Orderly(s) && t < |s.threads| && s.threads[t].Notifying?
    ensures Orderly(At(s, t, Idle).(leases := FinishMove(s.leases, s.threads[t].after)))
  {
    var s' := At(s, t, Idle).(leases := FinishMove(s.leases, s.threads[t].after));
    assert TargetReady(s, t);
    forall u: nat | u < |s'.threads| && HasAfter(s'.threads[u]) && s'.threads[u].after.MoveInto?
      ensures && HasAfter(s.threads[u]) && s.threads[u].after == s'.threads[u].after
              && (s.threads[u].after.dst < |s.leases| ==> s'.leases[s.threads[u].after.dst].None?)
    {
      assert u != t && Disjoint(s, t, u) && TargetReady(s, u);
    }
    OrderlyKept(s, s');
  }

  lemma SameOrderly(s: Sys, s': Sys)
    requires Orderly(s) && s'.threads == s.threads && s'.leases == s.leases
    ensures Orderly(s')
  {
    forall t: nat ensures TargetReady(s', t) { assert TargetReady(s, t); }
    forall t: nat, u: nat | t != u ensures Disjoint(s', t, u) { assert Disjoint(s, t, u); }
  }

  lemma DropOrderly(s: Sys, t: nat, l: nat)
    requires Orderly(s) && t < |s.threads| && l < |s.leases| && s.leases[l].Some?
    ensures Orderly(DropInto(s, t, l, Nothing))
  {
    var mid := s.(leases := s.leases[l := None]);
    LeasesOrderly(s, mid.leases);
    var s' := DropInto(s, t, l, Nothing);
    forall u: nat | u < |s'.threads| && HasAfter(s'.threads[u]) && s'.threads[u].after.MoveInto?
      ensures mid.threads[u].after.dst < |mid.leases| ==> s'.leases[mid.threads[u].after.dst].None?
    {
      assert TargetReady(mid, u);
    }
    OrderlyKept(mid, s');
  }

  lemma AssignOrderly(s: Sys, t: nat, dst: nat, src: nat)
    requires Orderly(s) && LeaseEnabled(s, Assign(t, dst, src))
    ensures Orderly(DoLease(s, Assign(t, dst, src)))
  {
    if dst != src {
      var mid := s.(leases := DoLease(s, Assign(t, dst, src)).leases);
      LeasesOrderly(s, mid.leases);
      if s.leases[dst].Some? {
        StartMoveOrderly(mid, t, s.leases[dst].value, dst, src);
      }
    }
  }

  lemma LeaseOrderly(s: Sys, op: LeaseOp)
    requires Orderly(s) && LeaseEnabled(s, op)
    ensures Orderly(DoLease(s, op))
  {
    match op
    case MoveOut(src) => LeasesOrderly(s, DoLease(s, op).leases);
    case Drop(t, l) =>
      if s.leases[l].Some? {
        DropOrderly(s, t, l);
      }
    case Assign(t, dst, src) => AssignOrderly(s, t, dst, src);
  }

  lemma OpenedOrderly(s: Sys, t: nat, ok: bool, woken: Option<nat>)
    requires Orderly(s) && Enabled(s, Opened(t, ok, woken))
    ensures Orderly(DoOpened(s, t, ok, woken))
  {
    if ok {
      OrderlyAt(s, DoOpened(s, t, ok, woken), t, Idle);
    } else {
      var mid := At(s.(pool := Unreserve(s.pool)), t, Idle);
      OrderlyAt(s, mid, t, Idle);
      WakeOrderly(mid, woken);
    }
  }

  lemma NotifyOrderly(s: Sys, t: nat, woken: Option<nat>)
    requires Orderly(s) && Enabled(s, Notify(t, woken))
    ensures Orderly(DoNotify(s, t, woken))
  {
    FinishMoveOrderly(s, t);
    WakeOrderly(At(s, t, Idle).(leases := FinishMove(s.leases, s.threads[t].after)), woken);
  }

  lemma SearchOrderly(opt: PoolOptions, s: Sys, t: nat)
    requires Orderly(s) && Enabled(s, Search(t))
    ensures Orderly(DoSearch(opt, s, t))
  {
    var call := CallOf(opt, s, t);
    if s.threads[t].Evicting? {
      DecideOrderly(opt, s, t, call);
    } else {
      LoopOrderly(opt, s, t, call);
    }
  }

  lemma EndWaitOrderly(s: Sys, t: nat, timedOut: bool)
    requires Orderly(s) && Enabled(s, EndWait(t, timedOut))
    ensures Orderly(DoEndWait(s, t, timedOut))
  {
    var s' := DoEndWait(s, t, timedOut);
    OrderlyAt(s, s', t, s'.threads[t]);
  }

  lemma PingedOrderly(s: Sys, t: nat, ok: bool)
    requires Orderly(s) && Enabled(s, Pinged(t, ok))
    ensures Orderly(DoPinged(s, t, ok))
  {
    if ok {
      OrderlyAt(s, Grant(s, t, s.threads[t].entry), t, Idle);
    } else {
      OrderlyAt(s, DoPinged(s, t, ok), t, Retrying(s.threads[t].call));
    }
  }

  lemma PutBackOrderly(s: Sys, t: nat, usable: bool)
    requires Orderly(s) && Enabled(s, PutBackEntry(t, usable))
    ensures Orderly(DoPutBack(s, t, usable))
  {
    OrderlyAt(s, DoPutBack(s, t, usable), t, Notifying(s.threads[t].after));
  }

  lemma CloseOrderly(s: Sys, t: nat)
    requires Orderly(s) && Enabled(s, Close(t))
    ensures Orderly(DoClose(s, t))
  {
    var s' := DoClose(s, t);
    OrderlyAt(s, s', t, s'.threads[t]);
  }

  lemma StepOrderly(opt: PoolOptions, s: Sys, step: Step)
    requires Orderly(s) && Enabled(s, step)
    ensures Orderly(Apply(opt, s, step))
  {
    match step
    case Tick(dt) => SameOrderly(s, s.(now := s.now + dt));
    case Search(t) => SearchOrderly(opt, s, t);
    case EndWait(t, timedOut) => EndWaitOrderly(s, t, timedOut);
    case Pinged(t, ok) => PingedOrderly(s, t, ok);
    case Opened(t, ok, w) => OpenedOrderly(s, t, ok, w);
    case UseLease(op) => LeaseOrderly(s, op);
    case PutBackEntry(t, usable) => PutBackOrderly(s, t, usable);
    case Notify(t, w) => NotifyOrderly(s, t, w);
    case Close(t) => CloseOrderly(s, t);
  }

  // ---------------------------------------------------------------- the idle queue stays sorted

  ghost predicate Timely(s: Sys) {
    && Sorted(s.pool.available, s.stamps)
    && (forall e :: e in s.pool.available ==> StampOf(s.stamps, e).lastReturnedAt <= s.now)
  }

  lemma TailTimely(s: Sys)
    requires Timely(s) && s.pool.available != []
    ensures Timely(s.(pool := s.pool.(available := s.pool.available[1..])))
  {
    SubsequenceStaysSorted(s.pool.available[1..], s.pool.available, s.stamps) by {
      WholeSubsequence(s.pool.available[1..]);
    }
  }

  lemma {:induction false} WholeSubsequence<E>(xs: seq<E>)
    ensures Subsequence(xs, xs)
  {
    if xs != [] {
      WholeSubsequence(xs[1..]);
    }
  }

  lemma EvictTimely(opt: PoolOptions, s: Sys)
    requires Timely(s)
    ensures Timely(s.(pool := Evict(opt, s.now, s.stamps, s.pool).0))
  {
    ScanKeepsOrder(opt, s.now, s.stamps, s.pool.available, |s.pool.entries|);
    SubsequenceStaysSorted(Evict(opt, s.now, s.stamps, s.pool).0.available, s.pool.available, s.stamps);
  }

  /** A stamp changes for an entry that is not idle; the entry may join the end of the queue if stamped now. */
  lemma StampTimely(s: Sys, e: nat, stamp: Stamp)
    requires Timely(s) && e !in s.pool.available
    ensures Timely(s.(stamps := s.stamps[e := stamp]))
    ensures stamp.lastReturnedAt == s.now ==>
      Timely(s.(stamps := s.stamps[e := stamp], pool := s.pool.(available := s.pool.available + [e])))
  {
    var stamps := s.stamps[e := stamp];
    assert forall x :: x in s.pool.available ==> StampOf(stamps, x) == StampOf(s.stamps, x);
    var longer := s.pool.available + [e];
    if stamp.lastReturnedAt == s.now {
      forall i, j | 0 <= i < j < |longer|
        ensures StampOf(stamps, longer[i]).lastReturnedAt <= StampOf(stamps, longer[j]).lastReturnedAt
      {
        assert longer[i] in s.pool.available;
      }
    }
  }

  lemma LoopTimely(opt: PoolOptions, s: Sys, t: nat, call: Call)
    requires Timely(s) && t < |s.threads|
    ensures Timely(LoopTop(opt, s, t, call)) && Timely(DecideStep(opt, s, t, call))
  {
    if s.pool.available != [] {
      TailTimely(s);
    }
    EvictTimely(opt, s);
  }

  lemma SearchTimely(opt: PoolOptions, s: Sys, t: nat)
    requires Timely(s) && Enabled(s, Search(t))
    ensures Timely(DoSearch(opt, s, t))
  {
    var call := CallOf(opt, s, t);
    if s.threads[t].Evicting? {
      LoopTimely(opt, s, t, call);
    } else {
      LoopTimely(opt, s, t, call);
    }
  }

  lemma OpenedTimely(opt: PoolOptions, s: Sys, t: nat, ok: bool, woken: Option<nat>)
    requires Timely(s) && Ledger(opt, s) && Enabled(s, Opened(t, ok, woken))
    ensures Timely(DoOpened(s, t, ok, woken))
  {
    assert s.next !in s.pool.entries;
    assert Places(s, s.next) == multiset(s.pool.entries)[s.next];
    assert s.next in s.pool.available ==> s.next in multiset(s.pool.available);
    StampTimely(s, s.next, Stamp(s.now, s.now));
  }

  lemma PutBackTimely(s: Sys, t: nat, usable: bool)
    requires Timely(s) && ExactlyOnePlace(s) && Enabled(s, PutBackEntry(t, usable))
    ensures Timely(DoPutBack(s, t, usable))
  {
    var e := s.threads[t].entry;
    HeldIsPlaced(s.threads, t);
    assert Places(s, e) == multiset(s.pool.entries)[e] <= 1;
    StampTimely(s, e, StampOf(s.stamps, e).(lastReturnedAt := s.now));
  }

  lemma CloseTimely(s: Sys, t: nat)
    requires Timely(s) && Enabled(s, Close(t))
    ensures Timely(DoClose(s, t))
  {
    if s.pool.available != [] {
      TailTimely(s);
    }
  }

  lemma StepTimely(opt: PoolOptions, s: Sys, step: Step)
    requires Timely(s) && Ledger(opt, s) && Enabled(s, step)
    ensures Timely(Apply(opt, s, step))
  {
    match step
    case Search(t) => SearchTimely(opt, s, t);
    case Opened(t, ok, w) => OpenedTimely(opt, s, t, ok, w);
    case PutBackEntry(t, usable) => PutBackTimely(s, t, usable);
    case Close(t) => CloseTimely(s, t);
    case _ =>
  }

  // ---------------------------------------------------------------- every reachable state

  ghost predicate Inv(opt: PoolOptions, s: Sys) {
    Ledger(opt, s) && Orderly(s) && Timely(s)
  }

  lemma LoopLedger(opt: PoolOptions, s: Sys, t: nat, call: Call)
    requires Ledger(opt, s) && t < |s.threads| && Empty(s.threads[t])
    ensures Ledger(opt, LoopTop(opt, s, t, call))
  {
    EvictLedger(opt, s, t, call);
    DecideLedger(opt, s, t, call);
  }

  lemma SearchLedger(opt: PoolOptions, s: Sys, t: nat)
    requires Ledger(opt, s) && Enabled(s, Search(t))
    ensures Ledger(opt, DoSearch(opt, s, t))
  {
    var call := CallOf(opt, s, t);
    if s.threads[t].Evicting? {
      DecideLedger(opt, s, t, call);
    } else {
      LoopLedger(opt, s, t, call);
    }
  }

  lemma EndWaitLedger(opt: PoolOptions, s: Sys, t: nat, timedOut: bool)
    requires Ledger(opt, s) && Enabled(s, EndWait(t, timedOut))
    ensures Ledger(opt, DoEndWait(s, t, timedOut))
  {
    Moves(s.threads, t, DoEndWait(s, t, timedOut).threads[t]);
  }

  lemma PingedLedger(opt: PoolOptions, s: Sys, t: nat, ok: bool)
    requires Ledger(opt, s) && Enabled(s, Pinged(t, ok))
    ensures Ledger(opt, DoPinged(s, t, ok))
  {
    if ok {
      PingLedger(opt, s, t);
    } else {
      DiscardLedger(opt, s, t, Retrying(s.threads[t].call), s.returned);
    }
  }

  lemma CloseLedger(opt: PoolOptions, s: Sys, t: nat)
    requires Ledger(opt, s) && Enabled(s, Close(t))
    ensures Ledger(opt, DoClose(s, t))
  {
    DrainLedger(opt, if s.threads[t].Idle? then s.(pool := Shut(s.pool)) else s, t);
  }

  lemma StepLedger(opt: PoolOptions, s: Sys, step: Step)
    requires Ledger(opt, s) && Orderly(s) && Enabled(s, step)
    ensures Ledger(opt, Apply(opt, s, step))
  {
    match step
    case Tick(_) =>
    case Search(t) => SearchLedger(opt, s, t);
    case EndWait(t, timedOut) => EndWaitLedger(opt, s, t, timedOut);
    case Pinged(t, ok) => PingedLedger(opt, s, t, ok);
    case Opened(t, ok, w) => OpenedLedger(opt, s, t, ok, w);
    case UseLease(op) => LeaseLedger(opt, s, op);
    case PutBackEntry(t, usable) => PutBackLedger(opt, s, t, usable);
    case Notify(t, w) => NotifyLedger(opt, s, t, w);
    case Close(t) => CloseLedger(opt, s, t);
  }

  lemma StepKeepsInv(opt: PoolOptions, s: Sys, step: Step)
    requires Inv(opt, s) && Enabled(s, step)
    ensures Inv(opt, Apply(opt, s, step))
  {
    StepLedger(opt, s, step);
    StepOrderly(opt, s, step);
    StepTimely(opt, s, step);
  }
}
