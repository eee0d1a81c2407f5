/** What one eviction scan removes from the idle queue. */
module PoolEviction {
  import opened Collections
  import opened PoolRegions

  /** Oldest return first. */
  ghost predicate Sorted<E>(es: seq<E>, stamps: map<E, Stamp>)
  {
    forall i, j :: 0 <= i < j < |es| ==> StampOf(stamps, es[i]).lastReturnedAt <= StampOf(stamps, es[j]).lastReturnedAt
  }

  ghost function CountIdle<E>(opt: PoolOptions, now: int, es: seq<E>, stamps: map<E, Stamp>): nat
  {
    if es == [] then 0
    else (if IdleExpired(opt, now, StampOf(stamps, es[0])) then 1 else 0) + CountIdle(opt, now, es[1..], stamps)
  }

  ghost function CountOverage<E>(opt: PoolOptions, now: int, es: seq<E>, stamps: map<E, Stamp>): nat
  {
    if es == [] then 0
    else (if LifetimeExpired(opt, now, StampOf(stamps, es[0])) then 1 else 0) + CountOverage(opt, now, es[1..], stamps)
  }

  ghost predicate Subsequence<E>(xs: seq<E>, ys: seq<E>) {
    xs == [] ||
    (ys != [] && ((xs[0] == ys[0] && Subsequence(xs[1..], ys[1..])) || Subsequence(xs, ys[1..])))
  }

  lemma {:induction false} NoneIdle<E>(opt: PoolOptions, now: int, es: seq<E>, stamps: map<E, Stamp>)
    requires Sorted(es, stamps)
    requires es != [] && !IdleExpired(opt, now, StampOf(stamps, es[0]))
    ensures CountIdle(opt, now, es, stamps) == 0
  {
    if |es| > 1 {
      assert StampOf(stamps, es[0]).lastReturnedAt <= StampOf(stamps, es[1]).lastReturnedAt;
      NoneIdle(opt, now, es[1..], stamps);
    }
  }

  lemma ScanDropsFirst<E>(opt: PoolOptions, now: int, stamps: map<E, Stamp>, queue: seq<E>, size: int, k: nat)
    requires queue != [] && Evictable(opt, now, StampOf(stamps, queue[0]), size) && k < |queue|
    requires Scan(opt, now, stamps, queue[1..], size - 1) == (queue[1..][k..], queue[1..][..k])
    ensures Scan(opt, now, stamps, queue, size) == (queue[k + 1..], queue[..k + 1])
  {
    OneLonger(queue, k);
  }

  lemma OneLonger<E>(queue: seq<E>, k: nat)
    requires k < |queue|
    ensures queue[1..][k..] == queue[k + 1..] && [queue[0]] + queue[1..][..k] == queue[..k + 1]
  {
  }

  lemma ScanKeepsFirst<E>(opt: PoolOptions, now: int, stamps: map<E, Stamp>, queue: seq<E>, size: int)
    requires queue != [] && !Evictable(opt, now, StampOf(stamps, queue[0]), size)
    requires Scan(opt, now, stamps, queue[1..], size) == (queue[1..], [])
    ensures Scan(opt, now, stamps, queue, size) == (queue, [])
  {
    assert [queue[0]] + queue[1..] == queue;
  }

  /** The idle-expired entries at the front that the minimum size lets go. */
  ghost function Surplus<E>(opt: PoolOptions, now: int, stamps: map<E, Stamp>, queue: seq<E>, size: int): int {
    Min(CountIdle(opt, now, queue, stamps), Max(0, size - opt.minSize))
  }

  lemma {:induction false} CountIdleBounded<E>(opt: PoolOptions, now: int, es: seq<E>, stamps: map<E, Stamp>)
    ensures CountIdle(opt, now, es, stamps) <= |es|
  {
    if es != [] {
      CountIdleBounded(opt, now, es[1..], stamps);
    }
  }

  /** Without a lifetime limit the scan drops exactly a prefix of the queue, never going below `minSize`. */
  lemma {:induction false} EvictsIdlePrefix<E>(opt: PoolOptions, now: int, stamps: map<E, Stamp>, queue: seq<E>,
                                               size: int)
    requires Sorted(queue, stamps)
    requires opt.maxLifetime.None?
    ensures var k := Surplus(opt, now, stamps, queue, size);
            0 <= k <= |queue| && Scan(opt, now, stamps, queue, size) == (queue[k..], queue[..k])
  {
    CountIdleBounded(opt, now, queue, stamps);
    if queue != [] {
      var rest := queue[1..];
      if IdleExpired(opt, now, StampOf(stamps, queue[0])) && size > opt.minSize {
        EvictsIdlePrefix(opt, now, stamps, rest, size - 1);
        ScanDropsFirst(opt, now, stamps, queue, size, Surplus(opt, now, stamps, rest, size - 1));
      } else {
        EvictsIdlePrefix(opt, now, stamps, rest, size);
        NothingSurplus(opt, now, stamps, queue, size);
        ScanKeepsFirst(opt, now, stamps, queue, size);
      }
    }
  }

  lemma NothingSurplus<E>(opt: PoolOptions, now: int, stamps: map<E, Stamp>, queue: seq<E>, size: int)
    requires Sorted(queue, stamps) && queue != []
    requires !IdleExpired(opt, now, StampOf(stamps, queue[0])) || size <= opt.minSize
    ensures Surplus(opt, now, stamps, queue, size) == 0 == Surplus(opt, now, stamps, queue[1..], size)
  {
    if !IdleExpired(opt, now, StampOf(stamps, queue[0])) {
      NoneIdle(opt, now, queue, stamps);
    }
  }

  lemma {:induction false} ScanKeepsAll<E>(opt: PoolOptions, now: int, stamps: map<E, Stamp>, queue: seq<E>, size: int)
    ensures var (kept, gone) := Scan(opt, now, stamps, queue, size);
            multiset(queue) == multiset(kept) + multiset(gone)
  {
    if queue != [] {
      assert queue == [queue[0]] + queue[1..];
      ScanKeepsAll(opt, now, stamps, queue[1..],
        if Evictable(opt, now, StampOf(stamps, queue[0]), size) then size - 1 else size);
    }
  }

  lemma {:induction false} ScanKeepsOrder<E>(opt: PoolOptions, now: int, stamps: map<E, Stamp>, queue: seq<E>,
                                             size: int)
    ensures var (kept, gone) := Scan(opt, now, stamps, queue, size);
            && multiset(queue) == multiset(kept) + multiset(gone)
            && Subsequence(kept, queue) && Subsequence(gone, queue)
  {
    ScanKeepsAll(opt, now, stamps, queue, size);
    if queue != [] {
      var evict := Evictable(opt, now, StampOf(stamps, queue[0]), size);
      var next := if evict then size - 1 else size;
      ScanKeepsOrder(opt, now, stamps, queue[1..], next);
    }
  }

  lemma {:induction false} ScanJudges<E>(opt: PoolOptions, now: int, stamps: map<E, Stamp>, queue: seq<E>, size: int)
    ensures var (kept, gone) := Scan(opt, now, stamps, queue, size);
            && (forall e :: e in kept ==> !LifetimeExpired(opt, now, StampOf(stamps, e)))
            && (forall e :: e in gone ==>
                  (LifetimeExpired(opt, now, StampOf(stamps, e)) || IdleExpired(opt, now, StampOf(stamps, e))))
  {
    if queue != [] {
      ScanJudges(opt, now, stamps, queue[1..],
        if Evictable(opt, now, StampOf(stamps, queue[0]), size) then size - 1 else size);
    }
  }

  lemma {:induction false} ScanSpares<E>(opt: PoolOptions, now: int, stamps: map<E, Stamp>, queue: seq<E>, size: int)
    ensures size - |Scan(opt, now, stamps, queue, size).1|
              >= Min(size, opt.minSize) - CountOverage(opt, now, queue, stamps)
  {
    if queue != [] {
      ScanSpares(opt, now, stamps, queue[1..],
        if Evictable(opt, now, StampOf(stamps, queue[0]), size) then size - 1 else size);
    }
  }

  /**
    With or without a lifetime limit: survivors keep their order, every over-age idle entry goes, whatever goes
    has expired one way or the other, and only lifetime evictions can take the pool below `minSize`.
   */
  lemma EvictsExpired<E>(opt: PoolOptions, now: int, stamps: map<E, Stamp>, p: Pool<E>)
    requires multiset(p.available) <= multiset(p.entries)
    ensures var (p', gone) := Evict(opt, now, stamps, p);
            && multiset(p.available) == multiset(p'.available) + multiset(gone)
            && multiset(p.entries) == multiset(p'.entries) + multiset(gone)
            && Subsequence(p'.available, p.available)
            && (forall e :: e in p'.available ==> !LifetimeExpired(opt, now, StampOf(stamps, e)))
            && (forall e :: e in gone ==>
                  (LifetimeExpired(opt, now, StampOf(stamps, e)) || IdleExpired(opt, now, StampOf(stamps, e))))
            && |p'.entries| >= Min(|p.entries|, opt.minSize) - CountOverage(opt, now, p.available, stamps)
  {
    ScanKeepsOrder(opt, now, stamps, p.available, |p.entries|);
    ScanJudges(opt, now, stamps, p.available, |p.entries|);
    ScanSpares(opt, now, stamps, p.available, |p.entries|);
    var gone := Evict(opt, now, stamps, p).1;
    ExtractAllCounts(p.entries, gone);
    SplitSizes(p.entries, ExtractAll(p.entries, gone), gone);
  }

  lemma SplitSizes<E>(all: seq<E>, kept: seq<E>, gone: seq<E>)
    requires multiset(all) == multiset(kept) + multiset(gone)
    ensures |all| == |kept| + |gone|
  {
    assert |multiset(all)| == |multiset(kept)| + |multiset(gone)|;
  }

  lemma {:induction false} SubsequenceStaysSorted<E>(xs: seq<E>, ys: seq<E>, stamps: map<E, Stamp>)
    requires Sorted(ys, stamps) && Subsequence(xs, ys)
    ensures Sorted(xs, stamps)
    ensures forall x :: x in xs ==> x in ys
  {
    if xs != [] {
      var rest := ys[1..];
      forall i, j | 0 <= i < j < |rest|
        ensures StampOf(stamps, rest[i]).lastReturnedAt <= StampOf(stamps, rest[j]).lastReturnedAt
      {
        assert rest[i] == ys[i + 1] && rest[j] == ys[j + 1];
      }
      if xs[0] == ys[0] && Subsequence(xs[1..], rest) {
        SubsequenceStaysSorted(xs[1..], rest, stamps);
        forall j | 0 <= j < |xs|
          ensures xs[j] in ys && StampOf(stamps, xs[0]).lastReturnedAt <= StampOf(stamps, xs[j]).lastReturnedAt
        {
          if j > 0 {
            assert xs[j] == xs[1..][j - 1] && xs[j] in rest;
            var m :| 0 <= m < |rest| && rest[m] == xs[j];
            assert ys[m + 1] == xs[j];
          }
        }
        forall i, j | 0 <= i < j < |xs|
          ensures StampOf(stamps, xs[i]).lastReturnedAt <= StampOf(stamps, xs[j]).lastReturnedAt
        {
          if i > 0 {
            assert xs[1..][i - 1] == xs[i] && xs[1..][j - 1] == xs[j];
          }
        }
      } else {
        SubsequenceStaysSorted(xs, rest, stamps);
      }
    }
  }

  lemma {:induction false} ScanAllKept<E>(opt: PoolOptions, now: int, stamps: map<E, Stamp>, queue: seq<E>, size: int)
    requires Scan(opt, now, stamps, queue, size).1 == []
    ensures Scan(opt, now, stamps, queue, size).0 == queue
  {
    if queue != [] {
      ScanAllKept(opt, now, stamps, queue[1..], size);
    }
  }

  /** An eviction that takes nothing changes nothing. */
  lemma NothingGone<E>(opt: PoolOptions, now: int, stamps: map<E, Stamp>, p: Pool<E>)
    requires Evict(opt, now, stamps, p).1 == []
    ensures Evict(opt, now, stamps, p).0 == p
  {
    ScanAllKept(opt, now, stamps, p.available, |p.entries|);
  }

  // ---------------------------------------------------------------- by the clocks

  /**
    What a scan takes has lived for the whole lifetime or been idle for the whole timeout; what it keeps has not, save
    for the last entries of the pool, which no timeout takes.
   */
  lemma {:induction false} ScanByTheClocks<E>(opt: PoolOptions, now: int, stamps: map<E, Stamp>, queue: seq<E>,
                                              size: int)
    ensures var (kept, gone) := Scan(opt, now, stamps, queue, size);
            && (opt.maxLifetime.Some? ==>
                  forall e :: e in kept ==> now - StampOf(stamps, e).createdAt < opt.maxLifetime.value)
            && (opt.idleTimeout.Some? ==>
                  forall e :: e in kept && now - StampOf(stamps, e).lastReturnedAt >= opt.idleTimeout.value ==>
                    size - |gone| <= opt.minSize)
            && (forall e :: e in gone ==>
                  || (opt.maxLifetime.Some? && now - StampOf(stamps, e).createdAt >= opt.maxLifetime.value)
                  || (opt.idleTimeout.Some? && now - StampOf(stamps, e).lastReturnedAt >= opt.idleTimeout.value))
  {
    if queue != [] {
      ScanByTheClocks(opt, now, stamps, queue[1..],
        if Evictable(opt, now, StampOf(stamps, queue[0]), size) then size - 1 else size);
    }
  }

  /** The same of an eviction, and which entries of the pool it takes. */
  lemma EvictsByTheClocks<E>(opt: PoolOptions, now: int, stamps: map<E, Stamp>, p: Pool<E>)
    requires multiset(p.available) <= multiset(p.entries)
    ensures var (p', gone) := Evict(opt, now, stamps, p);
            && (opt.maxLifetime.Some? ==>
                  forall e :: e in p'.available ==> now - StampOf(stamps, e).createdAt < opt.maxLifetime.value)
            && (opt.idleTimeout.Some? ==>
                  forall e :: e in p'.available && now - StampOf(stamps, e).lastReturnedAt >= opt.idleTimeout.value ==>
                    |p'.entries| <= opt.minSize)
            && (forall e :: e in gone ==>
                  || (opt.maxLifetime.Some? && now - StampOf(stamps, e).createdAt >= opt.maxLifetime.value)
                  || (opt.idleTimeout.Some? && now - StampOf(stamps, e).lastReturnedAt >= opt.idleTimeout.value))
            && multiset(p.available) == multiset(p'.available) + multiset(gone)
            && multiset(p.entries) == multiset(p'.entries) + multiset(gone)
  {
    EvictsExpired(opt, now, stamps, p);
    ScanByTheClocks(opt, now, stamps, p.available, |p.entries|);
    SplitSizes(p.entries, Evict(opt, now, stamps, p).0.entries, Evict(opt, now, stamps, p).1);
  }

  /** Being returned does not prolong a lifetime: without an idle timeout only the times of creation matter. */
  lemma {:induction false} ReturnsDoNotProlong<E>(opt: PoolOptions, now: int, stamps: map<E, Stamp>,
                                                  stamps': map<E, Stamp>, queue: seq<E>, size: int, size': int)
    requires opt.idleTimeout.None?
    requires forall e :: e in queue ==> StampOf(stamps, e).createdAt == StampOf(stamps', e).createdAt
    ensures Scan(opt, now, stamps, queue, size) == Scan(opt, now, stamps', queue, size')
  {
    if queue != [] {
      var expired := LifetimeExpired(opt, now, StampOf(stamps, queue[0]));
      ReturnsDoNotProlong(opt, now, stamps, stamps', queue[1..],
        if expired then size - 1 else size, if expired then size' - 1 else size');
    }
  }
}
