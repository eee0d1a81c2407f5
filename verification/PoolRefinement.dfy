/** The pool object takes the protocol's steps: a heap of entries stands for the handles of PoolProtocol. */
module PoolRefinement {
  import opened Collections
  import opened PoolRegions
  import opened PoolProtocol
  import opened PoolOwnership
  import opened PoolTheorems
  import opened AttachmentPools

  // ---------------------------------------------------------------- handles and objects

  ghost predicate Known(ids: seq<nat>, n: nat) { forall i :: 0 <= i < |ids| ==> ids[i] < n }

  ghost predicate Distinct(objects: seq<PoolEntry>) {
    forall i, j :: 0 <= i < j < |objects| ==> objects[i] != objects[j]
  }

  ghost function Objects(objects: seq<PoolEntry>, ids: seq<nat>): (r: seq<PoolEntry>)
    requires Known(ids, |objects|)
    ensures |r| == |ids|
  {
    if ids == [] then [] else [objects[ids[0]]] + Objects(objects, ids[1..])
  }

  lemma {:induction false} ObjectsSnoc(objects: seq<PoolEntry>, ids: seq<nat>, e: nat)
    requires Known(ids, |objects|) && e < |objects|
    ensures Known(ids + [e], |objects|)
    ensures Objects(objects, ids + [e]) == Objects(objects, ids) + [objects[e]]
  {
    if ids == [] {
      assert ids + [e] == [e];
    } else {
      assert (ids + [e])[1..] == ids[1..] + [e];
      ObjectsSnoc(objects, ids[1..], e);
    }
  }

  /** More objects change nothing for the handles already known. */
  lemma {:induction false} ObjectsKept(objects: seq<PoolEntry>, more: PoolEntry, ids: seq<nat>)
    requires Known(ids, |objects|)
    ensures Objects(objects + [more], ids) == Objects(objects, ids)
  {
    if ids != [] {
      ObjectsKept(objects, more, ids[1..]);
    }
  }

  lemma {:induction false} ObjectsContain(objects: seq<PoolEntry>, ids: seq<nat>, e: nat)
    requires Known(ids, |objects|) && Distinct(objects) && e < |objects|
    ensures objects[e] in Objects(objects, ids) <==> e in ids
  {
    if ids != [] {
      ObjectsContain(objects, ids[1..], e);
      assert ids[0] in ids;
      assert ids == [ids[0]] + ids[1..];
    }
  }

  lemma {:induction false} ObjectsExtract(objects: seq<PoolEntry>, ids: seq<nat>, e: nat)
    requires Known(ids, |objects|) && Distinct(objects) && e < |objects|
    ensures Known(Extract<nat>(ids, e), |objects|)
    ensures Objects(objects, Extract<nat>(ids, e)) == Extract<PoolEntry>(Objects(objects, ids), objects[e])
  {
    if ids != [] {
      assert ids[0] in ids;
      if ids[0] != e {
        ObjectsExtract(objects, ids[1..], e);
        assert Extract<nat>(ids, e)[1..] == Extract<nat>(ids[1..], e);
      }
    }
  }

  lemma {:induction false} ObjectsExtractAll(objects: seq<PoolEntry>, ids: seq<nat>, gone: seq<nat>)
    requires Known(ids, |objects|) && Known(gone, |objects|) && Distinct(objects)
    ensures Known(ExtractAll<nat>(ids, gone), |objects|)
    ensures Objects(objects, ExtractAll<nat>(ids, gone))
         == ExtractAll<PoolEntry>(Objects(objects, ids), Objects(objects, gone))
    decreases |gone|
  {
    if gone != [] {
      assert gone[0] in gone;
      ObjectsExtract(objects, ids, gone[0]);
      ObjectsExtractAll(objects, Extract<nat>(ids, gone[0]), gone[1..]);
    }
  }

  /** The stamps of objects are those of their handles. */
  ghost predicate SameStamps(objects: seq<PoolEntry>, ids: seq<nat>, stamps: map<nat, Stamp>,
                             read: map<PoolEntry, Stamp>)
    requires Known(ids, |objects|)
  {
    forall e :: e in ids ==> StampOf(stamps, e) == StampOf(read, objects[e])
  }

  lemma {:induction false} ObjectsScan(opt: PoolOptions, now: int, objects: seq<PoolEntry>, ids: seq<nat>, size: int,
                                       stamps: map<nat, Stamp>, read: map<PoolEntry, Stamp>)
    requires Known(ids, |objects|) && SameStamps(objects, ids, stamps, read)
    ensures var (kept, gone) := Scan<nat>(opt, now, stamps, ids, size);
            && Known(kept, |objects|) && Known(gone, |objects|)
            && Scan<PoolEntry>(opt, now, read, Objects(objects, ids), size)
               == (Objects(objects, kept), Objects(objects, gone))
  {
    if ids != [] {
      assert ids[0] in ids;
      assert Objects(objects, ids)[1..] == Objects(objects, ids[1..]);
      var evict := Evictable(opt, now, StampOf(stamps, ids[0]), size);
      ObjectsScan(opt, now, objects, ids[1..], if evict then size - 1 else size, stamps, read);
      var (kept, gone) := Scan<nat>(opt, now, stamps, ids[1..], if evict then size - 1 else size);
      if evict {
        assert ([ids[0]] + gone)[1..] == gone;
      } else {
        assert ([ids[0]] + kept)[1..] == kept;
      }
    }
  }

  // ---------------------------------------------------------------- the pool object as a state of the protocol

  ghost function Image(objects: seq<PoolEntry>, p: Pool<nat>): Pool<PoolEntry>
    requires Known(p.entries, |objects|) && Known(p.available, |objects|)
  {
    Pool(Objects(objects, p.entries), Objects(objects, p.available), p.inUse, p.pending, p.closed)
  }

  ghost predicate Stamped(objects: seq<PoolEntry>, ids: seq<nat>, stamps: map<nat, Stamp>)
    requires Known(ids, |objects|)
    reads objects
  {
    forall e :: e in ids ==> e in stamps && stamps[e] == Stamp(objects[e].createdAt, objects[e].lastReturnedAt)
  }

  /** `p` and its entries are the shared state of `s`; object k is handle k. */
  ghost predicate Represents(opt: PoolOptions, s: Sys, p: AttachmentPool, objects: seq<PoolEntry>)
    reads p, objects
  {
    && p.Valid() && p.options == opt
    && |objects| == s.next && Distinct(objects)
    && Known(s.pool.entries, |objects|) && Known(s.pool.available, |objects|)
    && p.State() == Image(objects, s.pool)
    && Stamped(objects, s.pool.entries, s.stamps)
  }

  /** Handles 0 to n - 1 from `k` on. */
  ghost function Handles(k: nat, n: nat): (r: seq<nat>)
    requires k <= n
    ensures |r| == n - k && forall i :: 0 <= i < |r| ==> r[i] == k + i
    decreases n - k
  {
    if k == n then [] else [k] + Handles(k + 1, n)
  }

  lemma {:induction false} AllObjects(objects: seq<PoolEntry>, k: nat)
    requires k <= |objects|
    ensures Objects(objects, Handles(k, |objects|)) == objects[k..]
    decreases |objects| - k
  {
    if k < |objects| {
      AllObjects(objects, k + 1);
      assert Handles(k, |objects|)[1..] == Handles(k + 1, |objects|);
    }
  }

  /** A pool just constructed, with its threads still at rest. */
  ghost function Fresh(p: AttachmentPool, objects: seq<PoolEntry>, threads: nat, now: int): Sys
    reads p, objects
  {
    var ids := Handles(0, |objects|);
    Sys(Pool(ids, ids, p.inUse, p.pending, p.closed),
        map e: nat | e < |objects| :: Stamp(objects[e].createdAt, objects[e].lastReturnedAt),
        seq(threads, _ => Idle), [], now, |objects|, 0, 0, 0, false)
  }

  /** The constructor leaves the heap standing for an initial state of the protocol. */
  method NewPoolRegion(options: PoolOptions, createDatabase: bool, opens: seq<Option<int>>, ghost threads: nat,
                       ghost now: int)
    returns (r: Result<AttachmentPool, PoolError>)
    requires |opens| == options.minSize
    requires forall i, j ::
               0 <= i < j < |opens| && opens[i].Some? && opens[j].Some? ==> opens[i].value <= opens[j].value
    requires forall i :: 0 <= i < |opens| && opens[i].Some? ==> opens[i].value <= now
    ensures r.Ok? ==>
      var s := Fresh(r.value, r.value.entries, threads, now);
      Initial(options, s) && Represents(options, s, r.value, r.value.entries)
  {
    r := NewPool(options, createDatabase, opens);
    if r.Ok? {
      ghost var p := r.value;
      AllObjects(p.entries, 0);
      assert p.entries[0..] == p.entries;
      FreshIsInitial(p, threads, now);
    }
  }

  lemma FreshIsInitial(p: AttachmentPool, threads: nat, now: int)
    requires 1 <= p.options.maxSize && p.options.minSize <= p.options.maxSize
    requires p.available == p.entries && |p.entries| == p.options.minSize
    requires p.inUse == 0 && p.pending == 0 && !p.closed
    requires forall i :: 0 <= i < |p.entries| ==> p.entries[i].lastReturnedAt <= now
    requires forall i, j :: 0 <= i < j < |p.entries| ==> p.entries[i].lastReturnedAt <= p.entries[j].lastReturnedAt
    ensures Initial(p.options, Fresh(p, p.entries, threads, now))
  {
  }

  lemma ImageStamps(opt: PoolOptions, s: Sys, p: AttachmentPool, objects: seq<PoolEntry>)
    requires Represents(opt, s, p, objects) && IdleLive(s)
    ensures SameStamps(objects, s.pool.available, s.stamps, p.Stamps())
  {
    forall e | e in s.pool.available ensures StampOf(s.stamps, e) == StampOf(p.Stamps(), objects[e]) {
      ObjectsContain(objects, s.pool.entries, e);
    }
  }

  /** Eviction on the objects is eviction on the handles. */
  lemma ImageEvict(opt: PoolOptions, s: Sys, p: AttachmentPool, objects: seq<PoolEntry>)
    requires Represents(opt, s, p, objects) && IdleLive(s)
    ensures var (q, gone) := Evict<nat>(opt, s.now, s.stamps, s.pool);
            && Known(q.entries, |objects|) && Known(q.available, |objects|) && Known(gone, |objects|)
            && Evict<PoolEntry>(opt, s.now, p.Stamps(), p.State()) == (Image(objects, q), Objects(objects, gone))
  {
    ImageStamps(opt, s, p, objects);
    ObjectsScan(opt, s.now, objects, s.pool.available, |s.pool.entries|, s.stamps, p.Stamps());
    var gone := Scan<nat>(opt, s.now, s.stamps, s.pool.available, |s.pool.entries|).1;
    ObjectsExtractAll(objects, s.pool.entries, gone);
  }

  /** Where the thread stands after its region, and what it was handed. */
  ghost predicate Lands(s: Sys, s': Sys, t: nat, call: Call, turn: Turn, objects: seq<PoolEntry>)
    requires t < |s'.threads|
  {
    match turn
    case Evicted => s'.threads[t] == Evicting(call) && s'.leases == s.leases
    case Leased(entry) =>
      && s'.threads[t] == Idle && |s'.leases| == |s.leases| + 1 && s'.leases[..|s.leases|] == s.leases
      && s'.leases[|s.leases|].Some? && s'.leases[|s.leases|].value < |objects|
      && objects[s'.leases[|s.leases|].value] == entry
    case Checking(entry) =>
      && s'.threads[t].Validating? && s'.threads[t].call == call && s'.leases == s.leases
      && s'.threads[t].entry < |objects| && objects[s'.threads[t].entry] == entry
    case Opening => s'.threads[t] == Creating(call) && s'.leases == s.leases
    case GaveUp => s'.threads[t] == Idle && s'.leases == s.leases
    case Sleeping => s'.threads[t] == PoolProtocol.Sleeping(call) && s'.leases == s.leases
  }

  lemma DecisionRepresented(opt: PoolOptions, s: Sys, t: nat, call: Call, p: AttachmentPool, objects: seq<PoolEntry>,
                            was: Pool<PoolEntry>, turn: Turn)
    requires t < |s.threads| && |objects| == s.next && Distinct(objects)
    requires Known(s.pool.entries, |objects|) && Known(s.pool.available, |objects|) && was == Image(objects, s.pool)
    requires p.Valid() && p.options == opt && AsDecided(opt, was, p.State(), turn, call.deadline <= s.now)
    requires Stamped(objects, s.pool.entries, s.stamps)
    ensures Represents(opt, DecideStep(opt, s, t, call), p, objects)
    ensures Lands(s, DecideStep(opt, s, t, call), t, call, turn, objects)
  {
    if s.pool.available != [] {
      assert s.pool.available[0] in s.pool.available;
      assert Objects(objects, s.pool.available)[1..] == Objects(objects, s.pool.available[1..]);
    }
  }

  /** The region of a thread that retakes the mutex after evicting. */
  method DecideRegion(ghost opt: PoolOptions, ghost s: Sys, ghost t: nat, p: AttachmentPool,
                      ghost objects: seq<PoolEntry>, now: int, deadline: int) returns (turn: Turn)
    requires Represents(opt, s, p, objects) && Enabled(s, Search(t)) && s.threads[t].Evicting?
    requires now == s.now && deadline == s.threads[t].call.deadline
    modifies p
    ensures Represents(opt, DoSearch(opt, s, t), p, objects)
    ensures Lands(s, DoSearch(opt, s, t), t, CallOf(opt, s, t), turn, objects)
  {
    ghost var was := p.State();
    turn := p.DecideLocked(now, deadline);
    DecisionRepresented(opt, s, t, s.threads[t].call, p, objects, was, turn);
  }

  /** The region of a thread that enters acquireImpl while the pool is open, or goes round its loop again. */
  method LoopRegion(ghost opt: PoolOptions, ghost s: Sys, ghost t: nat, p: AttachmentPool,
                    ghost objects: seq<PoolEntry>, now: int, deadline: int) returns (turn: Turn)
    requires Represents(opt, s, p, objects) && Enabled(s, Search(t)) && !s.threads[t].Evicting?
    requires s.threads[t].Idle? ==> !s.pool.closed
    requires IdleLive(s)
    requires now == s.now && deadline == CallOf(opt, s, t).deadline
    modifies p
    ensures Represents(opt, DoSearch(opt, s, t), p, objects)
    ensures Lands(s, DoSearch(opt, s, t), t, CallOf(opt, s, t), turn, objects)
  {
    ghost var was := p.State();
    ImageEvict(opt, s, p, objects);
    ghost var (q, gone) := Evict<nat>(opt, s.now, s.stamps, s.pool);
    ExtractAllFewer(s.pool.entries, gone);
    turn := p.LoopTop(now, deadline);
    if !turn.Evicted? {
      DecisionRepresented(opt, s, t, CallOf(opt, s, t), p, objects, was, turn);
    }
  }

  lemma {:induction false} ExtractAllFewer(ids: seq<nat>, gone: seq<nat>)
    ensures forall e :: e in ExtractAll<nat>(ids, gone) ==> e in ids
    decreases |gone|
  {
    if gone != [] {
      ExtractKeepsOthers<nat>(ids, gone[0]);
      ExtractAllFewer(Extract<nat>(ids, gone[0]), gone[1..]);
    }
  }

  /** The entry a thread holds is live and not idle. */
  ghost predicate HoldsLive(s: Sys, t: nat) {
    && t < |s.threads| && (s.threads[t].Validating? || s.threads[t].Releasing?)
    && s.threads[t].entry in s.pool.entries && s.threads[t].entry !in s.pool.available
  }

  /** Idle entries are live. */
  ghost predicate IdleLive(s: Sys) { forall e :: e in s.pool.available ==> e in s.pool.entries }

  /** Both hold in every reachable state, so each region below can be run wherever the protocol gets. */
  lemma RegionsAreReady(opt: PoolOptions, s: Sys)
    requires Reachable(opt, s)
    ensures IdleLive(s)
    ensures forall t: nat ::
              t < |s.threads| && (s.threads[t].Validating? || s.threads[t].Releasing?) ==> HoldsLive(s, t)
  {
    ReachableInv(opt, s);
    forall e | e in s.pool.available ensures e in s.pool.entries {
      assert e in multiset(s.pool.available);
      assert Places(s, e) == multiset(s.pool.entries)[e];
    }
    forall t: nat | t < |s.threads| && (s.threads[t].Validating? || s.threads[t].Releasing?) ensures HoldsLive(s, t) {
      var e := s.threads[t].entry;
      HeldIsPlaced(s.threads, t);
      assert Places(s, e) == multiset(s.pool.entries)[e] <= 1;
      assert e in s.pool.available ==> e in multiset(s.pool.available);
    }
  }

  lemma DiscardRepresented(p: Pool<nat>, e: nat, objects: seq<PoolEntry>)
    requires Known(p.entries, |objects|) && Known(p.available, |objects|) && Distinct(objects) && e < |objects|
    ensures var q := Discard<nat>(p, e);
            && Known(q.entries, |objects|) && Known(q.available, |objects|)
            && Image(objects, q) == Discard<PoolEntry>(Image(objects, p), objects[e])
            && forall x :: x in q.entries ==> x in p.entries
  {
    ObjectsExtract(objects, p.entries, e);
    ExtractKeepsOthers<nat>(p.entries, e);
  }

  /** A ping that failed; a good one leaves the shared state as it is. */
  method PingFailedRegion(ghost opt: PoolOptions, ghost s: Sys, ghost t: nat, p: AttachmentPool, entry: PoolEntry,
                          ghost objects: seq<PoolEntry>)
    requires Represents(opt, s, p, objects) && HoldsLive(s, t) && Enabled(s, Pinged(t, false))
    requires s.threads[t].entry < |objects| && entry == objects[s.threads[t].entry]
    modifies p
    ensures Represents(opt, DoPinged(s, t, false), p, objects)
  {
    ghost var e := s.threads[t].entry;
    ObjectsContain(objects, s.pool.available, e);
    DiscardRepresented(s.pool, e, objects);
    p.DiscardChecked(entry);
  }

  /** A connection that opened joins as the next handle. */
  method OpenedRegion(ghost opt: PoolOptions, ghost s: Sys, ghost t: nat, p: AttachmentPool,
                      ghost objects: seq<PoolEntry>, now: int) returns (entry: PoolEntry)
    requires Represents(opt, s, p, objects) && Enabled(s, Opened(t, true, None)) && now == s.now
    modifies p
    ensures Represents(opt, DoOpened(s, t, true, None), p, objects + [entry])
    ensures DoOpened(s, t, true, None).leases == s.leases + [Some(|objects|)]
  {
    ghost var s' := DoOpened(s, t, true, None);
    entry := p.RegisterOpened(now);
    ghost var more := objects + [entry];
    ObjectsKept(objects, entry, s.pool.entries);
    ObjectsKept(objects, entry, s.pool.available);
    ObjectsSnoc(more, s.pool.entries, s.next);
    assert Stamped(more, s'.pool.entries, s'.stamps) by {
      forall e | e in s'.pool.entries
        ensures e in s'.stamps && s'.stamps[e] == Stamp(more[e].createdAt, more[e].lastReturnedAt)
      {
        if e != s.next {
          assert e in s.pool.entries && more[e] == objects[e];
        }
      }
    }
  }

  method OpenFailedRegion(ghost opt: PoolOptions, ghost s: Sys, ghost t: nat, p: AttachmentPool,
                          ghost objects: seq<PoolEntry>, ghost woken: Option<nat>) returns (notify: bool)
    requires Represents(opt, s, p, objects) && Enabled(s, Opened(t, false, woken))
    modifies p
    ensures Represents(opt, DoOpened(s, t, false, woken), p, objects) && notify
  {
    notify := p.AbandonOpening();
  }

  lemma PutBackRepresented(p: Pool<nat>, e: nat, usable: bool, objects: seq<PoolEntry>)
    requires Known(p.entries, |objects|) && Known(p.available, |objects|) && Distinct(objects) && e < |objects|
    ensures var q := PutBack<nat>(p, e, usable);
            && Known(q.entries, |objects|) && Known(q.available, |objects|)
            && Image(objects, q) == PutBack<PoolEntry>(Image(objects, p), objects[e], usable)
            && forall x :: x in q.entries ==> x in p.entries
  {
    ObjectsExtract(objects, p.entries, e);
    ExtractKeepsOthers<nat>(p.entries, e);
    ObjectsSnoc(objects, p.available, e);
  }

  ghost function Read(entry: PoolEntry): Stamp
    reads entry
  {
    Stamp(entry.createdAt, entry.lastReturnedAt)
  }

  /** The shared state after the region, and the stamps: only the entry put back has a new one. */
  lemma PutBackLands(opt: PoolOptions, s: Sys, t: nat, usable: bool, p: AttachmentPool, objects: seq<PoolEntry>)
    requires Enabled(s, PutBackEntry(t, usable)) && p.Valid() && p.options == opt
    requires |objects| == s.next && Distinct(objects) && s.threads[t].entry < |objects|
    requires Known(s.pool.entries, |objects|) && Known(s.pool.available, |objects|)
    requires p.State() == PutBack<PoolEntry>(Image(objects, s.pool), objects[s.threads[t].entry], usable)
    requires var stamps := Restamp(s.pool, s.stamps, s.threads[t].entry, usable, s.now);
             forall x :: x in s.pool.entries ==> x in s.stamps && StampOf(stamps, x) == Read(objects[x])
    ensures Represents(opt, DoPutBack(s, t, usable), p, objects)
  {
    PutBackRepresented(s.pool, s.threads[t].entry, usable, objects);
  }

  /** The locked region of release(), with the stamp it sets. */
  method PutBackRegion(ghost opt: PoolOptions, ghost s: Sys, ghost t: nat, p: AttachmentPool, entry: PoolEntry,
                       ghost objects: seq<PoolEntry>, attached: bool, resetFailed: bool, now: int)
    requires Represents(opt, s, p, objects) && HoldsLive(s, t) && now == s.now
    requires Enabled(s, PutBackEntry(t, attached && !resetFailed))
    requires s.threads[t].entry < |objects| && entry == objects[s.threads[t].entry]
    modifies p, entry`lastReturnedAt
    ensures Represents(opt, DoPutBack(s, t, attached && !resetFailed), p, objects)
  {
    ghost var e := s.threads[t].entry;
    ObjectsContain(objects, s.pool.available, e);
    ObjectsContain(objects, s.pool.entries, e);
    p.Release(entry, attached, resetFailed, now);
    PutBackLands(opt, s, t, attached && !resetFailed, p, objects);
  }

  lemma DrainRepresented(p: Pool<nat>, objects: seq<PoolEntry>)
    requires Known(p.entries, |objects|) && Known(p.available, |objects|) && Distinct(objects) && p.available != []
    ensures var q := DrainOne<nat>(p);
            && Known(q.entries, |objects|) && Known(q.available, |objects|)
            && Image(objects, q) == DrainOne<PoolEntry>(Image(objects, p))
            && forall x :: x in q.entries ==> x in p.entries
  {
    ObjectsExtract(objects, p.entries, p.available[0]);
    ExtractKeepsOthers<nat>(p.entries, p.available[0]);
  }

  lemma DrainLands(opt: PoolOptions, s: Sys, t: nat, p: AttachmentPool, objects: seq<PoolEntry>)
    requires Enabled(s, Close(t)) && p.Valid() && p.options == opt
    requires |objects| == s.next && Distinct(objects)
    requires Known(s.pool.entries, |objects|) && Known(s.pool.available, |objects|) && s.pool.available != []
    requires Stamped(objects, s.pool.entries, s.stamps)
    requires var q := if s.threads[t].Idle? then Shut(s.pool) else s.pool;
             p.State() == DrainOne<PoolEntry>(Image(objects, q))
    ensures Represents(opt, DoClose(s, t), p, objects)
  {
    DrainRepresented(if s.threads[t].Idle? then Shut(s.pool) else s.pool, objects);
  }

  /** One region of close(): closing, if it begins, and one turn of the drain loop or its end. */
  method CloseRegion(ghost opt: PoolOptions, ghost s: Sys, ghost t: nat, p: AttachmentPool,
                     ghost objects: seq<PoolEntry>, begins: bool) returns (more: bool)
    requires Represents(opt, s, p, objects) && Enabled(s, Close(t)) && begins == s.threads[t].Idle?
    modifies p
    ensures Represents(opt, DoClose(s, t), p, objects)
    ensures more <==> DoClose(s, t).threads[t].Draining?
  {
    if begins {
      p.closed := true;
    }
    more := p.available != [];
    if more {
      var entry := p.DrainFront();
      DrainLands(opt, s, t, p, objects);
    }
  }
}
