/**
  AttachmentPool and PooledAttachment as objects. Each method is one region of the code under the mutex, and its
  effect on the fields is the function of PoolRegions that PoolProtocol interleaves.
 */
module AttachmentPools {
  import opened Collections
  import opened PoolRegions
  import opened PoolEviction

  /** `queue` repeats nothing and holds only live entries. */
  ghost predicate Queued<E>(queue: seq<E>, entries: seq<E>) {
    && (forall i, j :: 0 <= i < j < |queue| ==> queue[i] != queue[j])
    && (forall e :: e in queue ==> e in entries)
  }

  lemma QueuedExtract<E>(queue: seq<E>, entries: seq<E>, e: E)
    requires Queued(queue, entries) && e !in queue
    ensures Queued(queue, Extract(entries, e))
  {
    ExtractKeepsOthers(entries, e);
  }

  lemma QueuedAppend<E>(queue: seq<E>, entries: seq<E>, e: E)
    requires Queued(queue, entries) && e !in queue && e in entries
    ensures Queued(queue + [e], entries)
  {
  }

  lemma {:induction false} QueuedWithin<E>(queue: seq<E>, entries: seq<E>)
    requires Queued(queue, entries)
    ensures multiset(queue) <= multiset(entries)
  {
    forall e | e in queue ensures multiset(queue)[e] == 1 <= multiset(entries)[e] {
      NoDuplicates(queue, e);
    }
  }

  lemma {:induction false} NoDuplicates<E>(queue: seq<E>, e: E)
    requires forall i, j :: 0 <= i < j < |queue| ==> queue[i] != queue[j]
    ensures multiset(queue)[e] == if e in queue then 1 else 0
  {
    if queue != [] {
      assert queue == [queue[0]] + queue[1..];
      NoDuplicates(queue[1..], e);
    }
  }

  /** Taking one entry out of the queue and out of the pool. */
  lemma QueuedWithout<E>(queue: seq<E>, entries: seq<E>, i: nat)
    requires Queued(queue, entries) && i < |queue|
    ensures Queued(queue[..i] + queue[i + 1..], Extract(entries, queue[i]))
    ensures |Extract(entries, queue[i])| == |entries| - 1
    ensures forall x :: x in queue[..i] + queue[i + 1..] ==> x in queue
  {
    var e, rest := queue[i], queue[..i] + queue[i + 1..];
    ExtractKeepsOthers(entries, e);
    forall x | x in rest ensures x in queue && x in Extract(entries, e) {
      var k :| 0 <= k < |rest| && rest[k] == x;
      assert x == queue[if k < i then k else k + 1];
    }
  }

  /** `after` is `before` without its first `e`; without one they are the same. */
  ghost predicate TakenOut<E>(before: seq<E>, after: seq<E>, e: E) {
    if e in before then
      exists i :: 0 <= i < |before| && before[i] == e && e !in before[..i] && after == before[..i] + before[i + 1..]
    else
      after == before
  }

  class PoolEntry {
    var createdAt: int
    var lastReturnedAt: int

    constructor (now: int)
      ensures createdAt == now && lastReturnedAt == now
    {
      createdAt := now;
      lastReturnedAt := now;
    }
  }

  /** How one turn of the retry loop leaves the mutex. */
  datatype Turn = Evicted | Leased(entry: PoolEntry) | Checking(entry: PoolEntry) | Opening | GaveUp | Sleeping

  datatype PoolError = CreatesDatabase | MaxSizeZero | MinAboveMax | CannotOpen

  class AttachmentPool {
    const options: PoolOptions
    var entries: seq<PoolEntry>
    var available: seq<PoolEntry>
    var inUse: int
    var pending: int
    var closed: bool

    ghost function State(): Pool<PoolEntry>
      reads this
    {
      Pool(entries, available, inUse, pending, closed)
    }

    ghost function Stamps(): map<PoolEntry, Stamp>
      reads this, entries
    {
      map e | e in entries :: Stamp(e.createdAt, e.lastReturnedAt)
    }

    ghost predicate Valid()
      reads this
    {
      Queued(available, entries)
    }

    constructor Empty(options: PoolOptions)
      ensures Valid() && this.options == options && State() == Pool([], [], 0, 0, false)
    {
      this.options := options;
      entries, available, inUse, pending, closed := [], [], 0, 0, false;
    }

    /** find_if and erase. */
    method ExtractEntry(entry: PoolEntry) returns (found: bool)
      modifies this`entries
      ensures found == (entry in old(entries))
      ensures entries == Extract(old(entries), entry)
      ensures TakenOut(old(entries), entries, entry)
    {
      var i := 0;
      while i < |entries| && entries[i] != entry
        invariant 0 <= i <= |entries| && entries == old(entries)
        invariant entry !in entries[..i]
      {
        i := i + 1;
      }
      ExtractAt(entries, entry, i);
      found := i < |entries|;
      if found {
        entries := entries[..i] + entries[i + 1..];
      }
    }

    /** evictLocked up to the point where it unlocks to destroy what it took out. */
    method EvictLocked(now: int) returns (toDestroy: seq<PoolEntry>)
      requires Valid()
      modifies this`entries, this`available
      ensures Valid()
      ensures (State(), toDestroy) == Evict(options, now, old(Stamps()), old(State()))
      ensures ByTheClocks(options, now, available, toDestroy, |entries|)
    {
      ghost var before, stamps := State(), Stamps();
      MidwayBegins(options, now, stamps, before);
      toDestroy := [];
      var it := 0;
      while it < |available|
        invariant Midway(options, now, stamps, before, entries, available, it, toDestroy)
        decreases |available| - it
      {
        var entry := available[it];
        assert StampOf(stamps, entry) == Stamp(entry.createdAt, entry.lastReturnedAt);
        var evict := false;
        if options.maxLifetime.Some? && now - entry.createdAt >= options.maxLifetime.value {
          evict := true;
        } else if options.idleTimeout.Some? && |entries| > options.minSize
                  && now - entry.lastReturnedAt >= options.idleTimeout.value {
          evict := true;
        }
        if evict {
          MidwayTakes(options, now, stamps, before, entries, available, it, toDestroy);
          available := available[..it] + available[it + 1..];
          var found := ExtractEntry(entry);
          if found {
            toDestroy := toDestroy + [entry];
          }
        } else {
          MidwayKeeps(options, now, stamps, before, entries, available, it, toDestroy);
          it := it + 1;
        }
      }
      MidwayEnds(options, now, stamps, before, entries, available, toDestroy);
      EvictedObjects(options, now, stamps, before);
    }

    /** One turn from the top of the loop of acquireImpl. */
    method LoopTop(now: int, deadline: int) returns (turn: Turn)
      requires Valid()
      modifies this`entries, this`available, this`inUse, this`pending
      ensures Valid()
      ensures turn.Evicted? <==> Evict(options, now, old(Stamps()), old(State())).1 != []
      ensures turn.Evicted? ==> State() == Evict(options, now, old(Stamps()), old(State())).0
      ensures !turn.Evicted? ==> AsDecided(options, old(State()), State(), turn, now >= deadline)
      ensures forall e :: e in available && options.maxLifetime.Some? ==> now - e.createdAt < options.maxLifetime.value
    {
      ghost var before, stamps := State(), Stamps();
      var toDestroy := EvictLocked(now);
      if toDestroy != [] {
        turn := Evicted;
      } else {
        NothingGone(options, now, stamps, before);
        turn := DecideLocked(now, deadline);
      }
    }

    /** From the idle queue to a lease, a validation, a new connection, giving up or sleeping. */
    method DecideLocked(now: int, deadline: int) returns (turn: Turn)
      requires Valid()
      modifies this`available, this`inUse, this`pending
      ensures Valid() && AsDecided(options, old(State()), State(), turn, now >= deadline)
    {
      if available != [] {
        var entry := available[0];
        available := available[1..];
        inUse := inUse + 1;
        if options.validateOnAcquire {
          turn := Checking(entry);
        } else {
          turn := Leased(entry);
        }
      } else if |entries| + pending < options.maxSize {
        pending := pending + 1;
        turn := Opening;
      } else if deadline - now <= 0 {
        turn := GaveUp;
      } else {
        turn := Sleeping;
      }
    }

    /** After a failed ping the entry leaves the pool; after a good one it is leased as it is. */
    method DiscardChecked(entry: PoolEntry)
      requires Valid() && entry !in available
      modifies this`entries, this`inUse
      ensures Valid() && State() == Discard(old(State()), entry)
      ensures inUse == old(inUse) - 1 && TakenOut(old(entries), entries, entry)
    {
      inUse := inUse - 1;
      QueuedExtract(available, entries, entry);
      var found := ExtractEntry(entry);
    }

    /** After connecting, the new entry joins the pool, to be leased at once. */
    method RegisterOpened(now: int) returns (entry: PoolEntry)
      requires Valid()
      modifies this`pending, this`entries, this`inUse
      ensures Valid() && fresh(entry)
      ensures State() == Register(old(State()), entry)
      ensures pending == old(pending) - 1 && inUse == old(inUse) + 1 && entries == old(entries) + [entry]
      ensures entry.createdAt == entry.lastReturnedAt == now
    {
      pending := pending - 1;
      entry := new PoolEntry(now);
      entries := entries + [entry];
      inUse := inUse + 1;
    }

    /** A connection could not be opened: `notify` says that notify_one follows, to let another waiter try. */
    method AbandonOpening() returns (notify: bool)
      requires Valid()
      modifies this`pending
      ensures Valid() && State() == Unreserve(old(State())) && pending == old(pending) - 1 && notify
    {
      pending := pending - 1;
      notify := true;
    }

    /** The locked part of release(). */
    method Release(entry: PoolEntry, attached: bool, resetFailed: bool, now: int)
      requires Valid() && entry in entries && entry !in available
      modifies this`entries, this`available, this`inUse, entry`lastReturnedAt
      ensures Valid()
      ensures State() == PutBack(old(State()), entry, attached && !resetFailed)
      ensures inUse == old(inUse) - 1
      ensures !closed && attached && !resetFailed ==>
        available == old(available) + [entry] && entries == old(entries)
      ensures closed || !attached || resetFailed ==>
        available == old(available) && TakenOut(old(entries), entries, entry)
      ensures entry.lastReturnedAt == if old(closed) || !attached || resetFailed then old(entry.lastReturnedAt) else now
    {
      inUse := inUse - 1;
      var discard := closed || !attached || resetFailed;
      if discard {
        QueuedExtract(available, entries, entry);
        var found := ExtractEntry(entry);
      } else {
        entry.lastReturnedAt := now;
        QueuedAppend(available, entries, entry);
        available := available + [entry];
      }
    }

    /** One turn of the drain loop of close(), up to the point where it unlocks to destroy the entry. */
    method DrainFront() returns (entry: PoolEntry)
      requires Valid() && available != []
      modifies this`entries, this`available
      ensures Valid() && State() == DrainOne(old(State())) && entry == old(available)[0]
      ensures available == old(available)[1..] && TakenOut(old(entries), entries, entry)
    {
      entry := available[0];
      QueuedWithout(available, entries, 0);
      assert available[..0] + available[1..] == available[1..];
      available := available[1..];
      var found := ExtractEntry(entry);
    }

    /** close() with no interference at its unlock points. */
    method Close()
      requires Valid()
      modifies this`entries, this`available, this`closed
      ensures Valid() && closed && available == []
      ensures State() == Drained(Shut(old(State())))
    {
      closed := true;
      while available != []
        invariant Valid() && closed
        invariant Drained(State()) == Drained(Shut(old(State())))
        invariant inUse == old(inUse) && pending == old(pending)
        decreases |available|
      {
        var entry := DrainFront();
      }
    }
  }

  /** The scan of the whole queue, seen from position `it` with `gone` already taken out. */
  ghost predicate Ahead<E>(opt: PoolOptions, now: int, stamps: map<E, Stamp>, queue: seq<E>, it: nat, size: int,
                           gone: seq<E>, all: (seq<E>, seq<E>))
    requires it <= |queue|
  {
    && all.0 == queue[..it] + Scan(opt, now, stamps, queue[it..], size).0
    && all.1 == gone + Scan(opt, now, stamps, queue[it..], size).1
  }

  /** The scan of `before` has reached position `it` of what it left idle. */
  ghost predicate Midway(opt: PoolOptions, now: int, stamps: map<PoolEntry, Stamp>, before: Pool<PoolEntry>,
                         entries: seq<PoolEntry>, available: seq<PoolEntry>, it: int, gone: seq<PoolEntry>)
  {
    && 0 <= it <= |available| && Queued(available, entries)
    && (forall e :: e in available ==> e in before.entries)
    && entries == ExtractAll(before.entries, gone)
    && Ahead(opt, now, stamps, available, it, |entries|, gone,
             Scan(opt, now, stamps, before.available, |before.entries|))
  }

  lemma MidwayBegins(opt: PoolOptions, now: int, stamps: map<PoolEntry, Stamp>, before: Pool<PoolEntry>)
    requires Queued(before.available, before.entries)
    ensures Midway(opt, now, stamps, before, before.entries, before.available, 0, [])
  {
    var all := Scan(opt, now, stamps, before.available, |before.entries|);
    assert before.available[0..] == before.available && before.available[..0] + all.0 == all.0;
  }

  lemma MidwayTakes(opt: PoolOptions, now: int, stamps: map<PoolEntry, Stamp>, before: Pool<PoolEntry>,
                    entries: seq<PoolEntry>, available: seq<PoolEntry>, it: int, gone: seq<PoolEntry>)
    requires Midway(opt, now, stamps, before, entries, available, it, gone) && it < |available|
    requires Evictable(opt, now, StampOf(stamps, available[it]), |entries|)
    ensures Midway(opt, now, stamps, before, Extract<PoolEntry>(entries, available[it]),
                   available[..it] + available[it + 1..], it, gone + [available[it]])
  {
    AheadEvicts(opt, now, stamps, available, it, |entries|, gone,
                Scan(opt, now, stamps, before.available, |before.entries|));
    QueuedWithout(available, entries, it);
    ExtractAllAppend(before.entries, gone, available[it]);
  }

  lemma MidwayKeeps(opt: PoolOptions, now: int, stamps: map<PoolEntry, Stamp>, before: Pool<PoolEntry>,
                    entries: seq<PoolEntry>, available: seq<PoolEntry>, it: int, gone: seq<PoolEntry>)
    requires Midway(opt, now, stamps, before, entries, available, it, gone) && it < |available|
    requires !Evictable(opt, now, StampOf(stamps, available[it]), |entries|)
    ensures Midway(opt, now, stamps, before, entries, available, it + 1, gone)
  {
    AheadKeeps(opt, now, stamps, available, it, |entries|, gone,
               Scan(opt, now, stamps, before.available, |before.entries|));
  }

  lemma MidwayEnds(opt: PoolOptions, now: int, stamps: map<PoolEntry, Stamp>, before: Pool<PoolEntry>,
                   entries: seq<PoolEntry>, available: seq<PoolEntry>, gone: seq<PoolEntry>)
    requires Midway(opt, now, stamps, before, entries, available, |available|, gone)
    ensures Evict(opt, now, stamps, before) == (before.(entries := entries, available := available), gone)
  {
    assert available[..|available|] + [] == available && gone + [] == gone;
  }

  /** Nobody kept is over age, only the last `minSize` entries may outlive the idle timeout, and nobody goes early. */
  ghost predicate ByTheClocks(opt: PoolOptions, now: int, kept: seq<PoolEntry>, gone: seq<PoolEntry>, size: int)
    reads kept, gone
  {
    && (forall e :: e in kept && opt.maxLifetime.Some? ==> now - e.createdAt < opt.maxLifetime.value)
    && (forall e :: e in kept && opt.idleTimeout.Some? && now - e.lastReturnedAt >= opt.idleTimeout.value ==>
          size <= opt.minSize)
    && (forall e :: e in gone ==>
          || (opt.maxLifetime.Some? && now - e.createdAt >= opt.maxLifetime.value)
          || (opt.idleTimeout.Some? && now - e.lastReturnedAt >= opt.idleTimeout.value))
  }

  lemma EvictedObjects(opt: PoolOptions, now: int, stamps: map<PoolEntry, Stamp>, p: Pool<PoolEntry>)
    requires Queued(p.available, p.entries)
    requires forall e :: e in p.entries ==> e in stamps && stamps[e] == Stamp(e.createdAt, e.lastReturnedAt)
    ensures var (p', gone) := Evict(opt, now, stamps, p);
            ByTheClocks(opt, now, p'.available, gone, |p'.entries|)
  {
    QueuedWithin(p.available, p.entries);
    EvictsByTheClocks(opt, now, stamps, p);
    var (p', gone) := Evict(opt, now, stamps, p);
    forall e | e in p'.available || e in gone ensures StampOf(stamps, e) == Stamp(e.createdAt, e.lastReturnedAt) {
      assert e in multiset(p'.available) + multiset(gone);
      assert e in multiset(p.available);
    }
  }

  lemma AheadEvicts<E>(opt: PoolOptions, now: int, stamps: map<E, Stamp>, queue: seq<E>, it: nat, size: int,
                       gone: seq<E>, all: (seq<E>, seq<E>))
    requires it < |queue| && Ahead(opt, now, stamps, queue, it, size, gone, all)
    requires Evictable(opt, now, StampOf(stamps, queue[it]), size)
    ensures Ahead(opt, now, stamps, queue[..it] + queue[it + 1..], it, size - 1, gone + [queue[it]], all)
  {
    var queue' := queue[..it] + queue[it + 1..];
    assert queue[it..][1..] == queue'[it..] && queue'[..it] == queue[..it];
    var ahead := Scan(opt, now, stamps, queue'[it..], size - 1).1;
    assert gone + ([queue[it]] + ahead) == (gone + [queue[it]]) + ahead;
  }

  lemma AheadKeeps<E>(opt: PoolOptions, now: int, stamps: map<E, Stamp>, queue: seq<E>, it: nat, size: int,
                      gone: seq<E>, all: (seq<E>, seq<E>))
    requires it < |queue| && Ahead(opt, now, stamps, queue, it, size, gone, all)
    requires !Evictable(opt, now, StampOf(stamps, queue[it]), size)
    ensures Ahead(opt, now, stamps, queue, it + 1, size, gone, all)
  {
    assert queue[it..][1..] == queue[it + 1..];
    var ahead := Scan(opt, now, stamps, queue[it + 1..], size).0;
    assert queue[..it] + ([queue[it]] + ahead) == queue[..it + 1] + ahead;
  }

  /** The drain loop of close() run to its end. */
  ghost function Drained<E>(p: Pool<E>): Pool<E>
    decreases |p.available|
  {
    if p.available == [] then p else Drained(DrainOne(p))
  }

  /** What DecideLocked may leave behind: an idle entry comes first, then a new connection, then the deadline. */
  ghost predicate AsDecided(opt: PoolOptions, p: Pool<PoolEntry>, p': Pool<PoolEntry>, turn: Turn, overdue: bool) {
    && p'.entries == p.entries && p'.closed == p.closed
    && (p.available != [] ==>
          && p'.available == p.available[1..] && p'.inUse == p.inUse + 1 && p'.pending == p.pending
          && turn == if opt.validateOnAcquire then Checking(p.available[0]) else Leased(p.available[0]))
    && (p.available == [] ==> p'.available == [] && p'.inUse == p.inUse)
    && (p.available == [] && |p.entries| + p.pending < opt.maxSize ==>
          turn == Opening && p'.pending == p.pending + 1)
    && (p.available == [] && |p.entries| + p.pending >= opt.maxSize ==>
          p'.pending == p.pending && turn == if overdue then GaveUp else Sleeping)
  }

  lemma {:induction false} ExtractAllAppend<E>(entries: seq<E>, gone: seq<E>, e: E)
    ensures ExtractAll(entries, gone + [e]) == Extract(ExtractAll(entries, gone), e)
    decreases |gone|
  {
    if gone == [] {
      assert gone + [e] == [e];
    } else {
      assert (gone + [e])[1..] == gone[1..] + [e];
      ExtractAllAppend(Extract(entries, gone[0]), gone[1..], e);
    }
  }

  /** Draining leaves exactly the entries that were not idle, in their order. */
  lemma {:induction false} DrainedEntries<E>(p: Pool<E>)
    requires multiset(p.available) <= multiset(p.entries)
    ensures Drained(p).available == [] && Drained(p).inUse == p.inUse
    ensures multiset(Drained(p).entries) == multiset(p.entries) - multiset(p.available)
    decreases |p.available|
  {
    if p.available != [] {
      assert p.available == [p.available[0]] + p.available[1..];
      ExtractCounts(p.entries, p.available[0]);
      DrainedEntries(DrainOne(p));
    }
  }

  class PooledAttachment {
    var pool: AttachmentPool?
    var entry: PoolEntry?

    constructor (pool: AttachmentPool, entry: PoolEntry)
      ensures this.pool == pool && this.entry == entry
    {
      this.pool := pool;
      this.entry := entry;
    }

    constructor Move(o: PooledAttachment)
      requires o.Valid()
      modifies o
      ensures Valid() && o.Valid()
      ensures pool == old(o.pool) && entry == old(o.entry)
      ensures o.pool == null && o.entry == null
    {
      pool := o.pool;
      entry := o.entry;
      new;
      o.pool := null;
      o.entry := null;
    }

    /** Both fields go together, and a valid lease's entry is lent by its pool. */
    ghost predicate Valid()
      reads this, pool
    {
      && (entry == null <==> pool == null)
      && (pool != null && entry != null ==>
            pool.Valid() && entry in pool.entries && entry !in pool.available)
    }

    method Release(attached: bool, resetFailed: bool, now: int)
      requires Valid()
      modifies this, pool, entry
      ensures Valid() && pool == null && entry == null
      ensures old(pool) != null && old(entry) != null ==>
        && old(pool).Valid()
        && old(pool).State() == PutBack(old(pool.State()), old(entry), attached && !resetFailed)
    {
      if entry == null {
        return;
      }
      var poolPtr, entryPtr := pool, entry;
      pool := null;
      entry := null;
      poolPtr.Release(entryPtr, attached, resetFailed, now);
    }

    /** `*this = std::move(o)`. */
    method MoveAssign(o: PooledAttachment, attached: bool, resetFailed: bool, now: int)
      requires Valid() && o.Valid()
      requires this != o && entry != null ==> entry != o.entry
      modifies this, pool, entry, o
      ensures Valid() && o.Valid()
      ensures this == o ==> pool == old(pool) && entry == old(entry)
      ensures this == o && old(pool) != null ==> old(pool).State() == old(pool.State())
      ensures this != o ==> pool == old(o.pool) && entry == old(o.entry) && o.pool == null && o.entry == null
      ensures this != o && old(pool) != null && old(entry) != null ==>
        old(pool).State() == PutBack(old(pool.State()), old(entry), attached && !resetFailed)
    {
      if this != o {
        if pool != null && entry != null {
          ghost var mine: PoolEntry := entry;
          ExtractKeepsOthers<PoolEntry>(pool.entries, mine);
        }
        Release(attached, resetFailed, now);
        pool := o.pool;
        entry := o.entry;
        o.pool := null;
        o.entry := null;
      }
    }
  }

  /**
    The constructor: option checks, then minSize connections. `opens` holds the clock reading of each connection, or
    None for one that cannot be opened; the first of those ends the construction.
   */
  method NewPool(options: PoolOptions, createDatabase: bool, opens: seq<Option<int>>)
    returns (r: Result<AttachmentPool, PoolError>)
    requires |opens| == options.minSize
    ensures r == Err(CreatesDatabase) <==> createDatabase
    ensures r == Err(MaxSizeZero) <==> !createDatabase && options.maxSize < 1
    ensures r == Err(MinAboveMax) <==> !createDatabase && options.maxSize >= 1 && options.minSize > options.maxSize
    ensures r == Err(CannotOpen) <==> !createDatabase && options.maxSize >= 1 && options.minSize <= options.maxSize
                                      && exists i :: 0 <= i < |opens| && opens[i].None?
    ensures r.Ok? ==>
      var p := r.value;
      && fresh(p) && p.Valid() && p.options == options
      && p.inUse == 0 && p.pending == 0 && !p.closed
      && p.available == p.entries && |p.entries| == options.minSize
      && (forall i :: 0 <= i < |opens| ==>
            opens[i] == Some(p.entries[i].createdAt) == Some(p.entries[i].lastReturnedAt))
      && (forall i, j :: 0 <= i < j < |opens| ==> p.entries[i] != p.entries[j])
  {
    if createDatabase {
      return Err(CreatesDatabase);
    }
    if options.maxSize < 1 {
      return Err(MaxSizeZero);
    }
    if options.minSize > options.maxSize {
      return Err(MinAboveMax);
    }
    var p := new AttachmentPool.Empty(options);
    var i := 0;
    while i < options.minSize
      invariant 0 <= i <= options.minSize && fresh(p)
      invariant p.Valid() && p.options == options && p.inUse == 0 && p.pending == 0 && !p.closed
      invariant p.available == p.entries && |p.entries| == i
      invariant forall k :: 0 <= k < i ==>
                  opens[k] == Some(p.entries[k].createdAt) == Some(p.entries[k].lastReturnedAt)
    {
      if opens[i].None? {
        return Err(CannotOpen);
      }
      var entry := new PoolEntry(opens[i].value);
      p.available := p.available + [entry];
      p.entries := p.entries + [entry];
      i := i + 1;
    }
    r := Ok(p);
  }
}
