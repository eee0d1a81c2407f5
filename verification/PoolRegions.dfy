/**
  The shared state of AttachmentPool and what each region between two unlock points does to it.
  `E` is the type of pool entries: an object in AttachmentPool.dfy, a handle in PoolProtocol.dfy.
 */
module PoolRegions {
  import opened Collections

  datatype PoolOptions = PoolOptions(
    minSize: nat,
    maxSize: nat,
    acquireTimeout: int,
    idleTimeout: Option<int>,
    maxLifetime: Option<int>,
    validateOnAcquire: bool)

  datatype Stamp = Stamp(createdAt: int, lastReturnedAt: int)

  datatype Pool<E> = Pool(
    entries: seq<E>,
    available: seq<E>,
    inUse: int,
    pending: int,
    closed: bool)

  /** The first occurrence of `e` is erased; nothing happens when there is none. */
  function Extract<E(==)>(entries: seq<E>, e: E): seq<E> {
    if entries == [] then []
    else if entries[0] == e then entries[1..]
    else [entries[0]] + Extract(entries[1..], e)
  }

  function ExtractAll<E(==)>(entries: seq<E>, gone: seq<E>): seq<E>
    decreases |gone|
  {
    if gone == [] then entries else ExtractAll(Extract(entries, gone[0]), gone[1..])
  }

  lemma {:induction false} ExtractCounts<E>(entries: seq<E>, e: E)
    ensures multiset(Extract(entries, e)) == multiset(entries) - multiset{e}
  {
    if entries != [] {
      assert entries == [entries[0]] + entries[1..];
      ExtractCounts(entries[1..], e);
    }
  }

  lemma {:induction false} ExtractKeepsOthers<E>(entries: seq<E>, e: E)
    ensures forall x :: x in entries && x != e ==> x in Extract(entries, e)
    ensures forall x :: x in Extract(entries, e) ==> x in entries
    ensures e in entries ==> |Extract(entries, e)| == |entries| - 1
  {
    if entries != [] && entries[0] != e {
      ExtractKeepsOthers(entries[1..], e);
    }
  }

  /** The entry at the first matching position is the one erased. */
  lemma {:induction false} ExtractAt<E>(entries: seq<E>, e: E, i: nat)
    requires i <= |entries| && e !in entries[..i] && (i < |entries| ==> entries[i] == e)
    ensures Extract(entries, e) == if i < |entries| then entries[..i] + entries[i + 1..] else entries
  {
    if i > 0 {
      var rest := entries[1..];
      assert entries[0] == entries[..i][0];
      assert rest[..i - 1] == entries[..i][1..];
      ExtractAt(rest, e, i - 1);
      if i < |entries| {
        assert [entries[0]] + (rest[..i - 1] + rest[i..]) == entries[..i] + entries[i + 1..];
      }
    }
  }

  lemma {:induction false} ExtractAllCounts<E>(entries: seq<E>, gone: seq<E>)
    ensures multiset(ExtractAll(entries, gone)) == multiset(entries) - multiset(gone)
    decreases |gone|
  {
    if gone != [] {
      assert gone == [gone[0]] + gone[1..];
      ExtractCounts(entries, gone[0]);
      ExtractAllCounts(Extract(entries, gone[0]), gone[1..]);
    }
  }

  predicate LifetimeExpired(opt: PoolOptions, now: int, s: Stamp) {
    opt.maxLifetime.Some? && now - s.createdAt >= opt.maxLifetime.value
  }

  predicate IdleExpired(opt: PoolOptions, now: int, s: Stamp) {
    opt.idleTimeout.Some? && now - s.lastReturnedAt >= opt.idleTimeout.value
  }

  function StampOf<E(==)>(stamps: map<E, Stamp>, e: E): Stamp {
    if e in stamps then stamps[e] else Stamp(0, 0)
  }

  ghost predicate Evictable(opt: PoolOptions, now: int, s: Stamp, size: int) {
    LifetimeExpired(opt, now, s) || (size > opt.minSize && IdleExpired(opt, now, s))
  }

  /** The eviction scan over the idle queue; `size` is the number of live entries at this point of the scan. */
  ghost function Scan<E>(opt: PoolOptions, now: int, stamps: map<E, Stamp>, queue: seq<E>, size: int)
    : (r: (seq<E>, seq<E>))
  {
    if queue == [] then ([], [])
    else
      var e := queue[0];
      if Evictable(opt, now, StampOf(stamps, e), size) then
        var (kept, gone) := Scan(opt, now, stamps, queue[1..], size - 1);
        (kept, [e] + gone)
      else
        var (kept, gone) := Scan(opt, now, stamps, queue[1..], size);
        ([e] + kept, gone)
  }

  ghost function Evict<E>(opt: PoolOptions, now: int, stamps: map<E, Stamp>, p: Pool<E>): (r: (Pool<E>, seq<E>))
  {
    var (kept, gone) := Scan(opt, now, stamps, p.available, |p.entries|);
    (p.(available := kept, entries := ExtractAll(p.entries, gone)), gone)
  }

  datatype Decision = TakeIdle | Create | GiveUp | Wait

  /** What an acquirer does once the idle queue has been scanned. */
  function Decide<E>(opt: PoolOptions, p: Pool<E>, overdue: bool): Decision {
    if p.available != [] then TakeIdle
    else if |p.entries| + p.pending < opt.maxSize then Create
    else if overdue then GiveUp
    else Wait
  }

  function Take<E>(p: Pool<E>): Pool<E>
    requires p.available != []
  {
    p.(available := p.available[1..], inUse := p.inUse + 1)
  }

  function Reserve<E>(p: Pool<E>): Pool<E> {
    p.(pending := p.pending + 1)
  }

  function Register<E>(p: Pool<E>, e: E): Pool<E> {
    p.(pending := p.pending - 1, entries := p.entries + [e], inUse := p.inUse + 1)
  }

  function Unreserve<E>(p: Pool<E>): Pool<E> {
    p.(pending := p.pending - 1)
  }

  function Discard<E(==)>(p: Pool<E>, e: E): Pool<E> {
    p.(inUse := p.inUse - 1, entries := Extract(p.entries, e))
  }

  /** `usable` is false when the attachment is gone, invalid, or its session reset failed. */
  function PutBack<E(==)>(p: Pool<E>, e: E, usable: bool): Pool<E> {
    if p.closed || !usable then Discard(p, e)
    else p.(inUse := p.inUse - 1, available := p.available + [e])
  }

  /** The entry's stamp after the same region. */
  function Restamp<E(==)>(p: Pool<E>, stamps: map<E, Stamp>, e: E, usable: bool, now: int): map<E, Stamp> {
    if p.closed || !usable then stamps else stamps[e := StampOf(stamps, e).(lastReturnedAt := now)]
  }

  function Shut<E>(p: Pool<E>): Pool<E> {
    p.(closed := true)
  }

  /** One turn of the drain loop of close(). */
  function DrainOne<E(==)>(p: Pool<E>): Pool<E>
    requires p.available != []
  {
    p.(available := p.available[1..], entries := Extract(p.entries, p.available[0]))
  }
}
