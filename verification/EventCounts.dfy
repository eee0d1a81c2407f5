/** From counter blocks to notifications: decodeEventCounts and the locked half of handleEvent, as values. */
module EventCounts {
  import opened Collections
  import opened EventBlocks

  datatype EventCount = EventCount(name: Name, count: Uint32)

  type Notification = seq<EventCount>
  type Counters = seq<Uint32>

  // ---------------------------------------------------------------- one block

  function Raised(newValue: Uint32, oldValue: Uint32): Uint32 {
    if newValue >= oldValue then newValue - oldValue else 0
  }

  function Differences(news: Counters, olds: Counters): Counters
    requires |news| == |olds|
  {
    seq(|news|, i requires 0 <= i < |news| => Raised(news[i], olds[i]))
  }

  function CounterOf(names: seq<Name>, block: seq<Byte>, i: nat): Uint32
    requires i < |names| && |block| == BlockSize(names)
  {
    CounterInside(names, i);
    Word(block, CounterAt(names, i))
  }

  function CountersOf(names: seq<Name>, block: seq<Byte>): Counters
    requires |block| == BlockSize(names)
  {
    seq(|names|, i requires 0 <= i < |names| => CounterOf(names, block, i))
  }

  /** The non-zero counts of the first `k` names, in registration order. */
  function Report(names: seq<Name>, raw: Counters, k: nat): Notification
    requires k <= |names| == |raw|
  {
    if k == 0 then []
    else Report(names, raw, k - 1) + if raw[k - 1] != 0 then [EventCount(names[k - 1], raw[k - 1])] else []
  }

  /** `at` places the entries of `n` among the registered names, in order; every non-zero count has its entry. */
  ghost predicate Reports(n: Notification, names: seq<Name>, raw: Counters, k: nat, at: seq<nat>)
    requires k <= |names| == |raw|
  {
    && |at| == |n|
    && (forall j :: 0 <= j < |n| ==> at[j] < k && raw[at[j]] != 0 && n[j] == EventCount(names[at[j]], raw[at[j]]))
    && (forall j, l :: 0 <= j < l < |n| ==> at[j] < at[l])
    && (forall i :: 0 <= i < k && raw[i] != 0 ==> i in at)
  }

  lemma {:induction false} PlaceEntries(names: seq<Name>, raw: Counters, k: nat) returns (at: seq<nat>)
    requires k <= |names| == |raw|
    ensures Reports(Report(names, raw, k), names, raw, k, at)
  {
    at := [];
    if k > 0 {
      at := PlaceEntries(names, raw, k - 1);
      at := NextEntry(Report(names, raw, k - 1), Report(names, raw, k), names, raw, k - 1, at);
    }
  }

  /** A notification lists exactly the non-zero counts, in registration order. */
  lemma ReportReports(names: seq<Name>, raw: Counters, k: nat)
    requires k <= |names| == |raw|
    ensures exists at :: Reports(Report(names, raw, k), names, raw, k, at)
  {
    var at := PlaceEntries(names, raw, k);
  }

  lemma NextEntry(n: Notification, n': Notification, names: seq<Name>, raw: Counters, k: nat, before: seq<nat>)
    returns (at: seq<nat>)
    requires k < |names| == |raw| && Reports(n, names, raw, k, before)
    requires n' == n + if raw[k] != 0 then [EventCount(names[k], raw[k])] else []
    ensures Reports(n', names, raw, k + 1, at)
  {
    at := before;
    if raw[k] != 0 {
      at := at + [k];
    } else {
      assert n' == n;
    }
  }

  // ---------------------------------------------------------------- counts by name

  /** Occurrences of `name` in the first `k` entries of a notification. */
  function CountUpTo(n: Notification, name: Name, k: nat): nat
    requires k <= |n|
  {
    if k == 0 then 0 else CountUpTo(n, name, k - 1) + if n[k - 1].name == name then n[k - 1].count else 0
  }

  function CountIn(n: Notification, name: Name): nat { CountUpTo(n, name, |n|) }

  /** Occurrences of `name` over the first `k` notifications of a list. */
  function TotalUpTo(ns: seq<Notification>, name: Name, k: nat): nat
    requires k <= |ns|
  {
    if k == 0 then 0 else TotalUpTo(ns, name, k - 1) + CountIn(ns[k - 1], name)
  }

  function TotalIn(ns: seq<Notification>, name: Name): nat { TotalUpTo(ns, name, |ns|) }

  lemma {:induction false} CountPrefix(n: Notification, e: EventCount, name: Name, k: nat)
    requires k <= |n|
    ensures CountUpTo(n + [e], name, k) == CountUpTo(n, name, k)
  {
    if k > 0 {
      CountPrefix(n, e, name, k - 1);
    }
  }

  lemma {:induction false} TotalPrefix(ns: seq<Notification>, n: Notification, name: Name, k: nat)
    requires k <= |ns|
    ensures TotalUpTo(ns + [n], name, k) == TotalUpTo(ns, name, k)
  {
    if k > 0 {
      TotalPrefix(ns, n, name, k - 1);
    }
  }

  lemma TotalSnoc(ns: seq<Notification>, n: Notification, name: Name)
    ensures TotalIn(ns + [n], name) == TotalIn(ns, name) + CountIn(n, name)
  {
    TotalPrefix(ns, n, name, |ns|);
  }

  /** A count registered under `name`, summed over the names equal to it among the first `k`. */
  function SumFor(names: seq<Name>, values: Counters, name: Name, k: nat): nat
    requires k <= |names| == |values|
  {
    if k == 0 then 0 else SumFor(names, values, name, k - 1) + if names[k - 1] == name then values[k - 1] else 0
  }

  lemma {:induction false} ReportCounts(names: seq<Name>, raw: Counters, name: Name, k: nat)
    requires k <= |names| == |raw|
    ensures CountIn(Report(names, raw, k), name) == SumFor(names, raw, name, k)
  {
    if k > 0 {
      ReportCounts(names, raw, name, k - 1);
      var before := Report(names, raw, k - 1);
      if raw[k - 1] != 0 {
        CountPrefix(before, EventCount(names[k - 1], raw[k - 1]), name, |before|);
      } else {
        assert before + [] == before;
      }
    }
  }

  // ---------------------------------------------------------------- many blocks

  ghost predicate SameWidth(history: seq<Counters>, width: nat) {
    forall j :: 0 <= j < |history| ==> |history[j]| == width
  }

  function News(names: seq<Name>, before: Counters, after: Counters): Notification
    requires |before| == |after| == |names|
  {
    Report(names, Differences(after, before), |names|)
  }

  /** A notification is queued unless it is empty. */
  function Queued(n: Notification): seq<Notification> { if n != [] then [n] else [] }

  /** What a listener enqueues over the first `k` absorbed counter vectors: the first is only the baseline. */
  function AnnouncedUpTo(names: seq<Name>, history: seq<Counters>, k: nat): seq<Notification>
    requires SameWidth(history, |names|) && k <= |history|
  {
    if k <= 1 then [] else AnnouncedUpTo(names, history, k - 1) + Queued(News(names, history[k - 2], history[k - 1]))
  }

  function Announced(names: seq<Name>, history: seq<Counters>): seq<Notification>
    requires SameWidth(history, |names|)
  {
    AnnouncedUpTo(names, history, |history|)
  }

  lemma {:induction false} AnnouncedBefore(names: seq<Name>, history: seq<Counters>, stored: Counters, k: nat)
    requires SameWidth(history, |names|) && |stored| == |names| && k <= |history|
    ensures SameWidth(history + [stored], |names|)
    ensures AnnouncedUpTo(names, history + [stored], k) == AnnouncedUpTo(names, history, k)
  {
    if k > 1 {
      AnnouncedBefore(names, history, stored, k - 1);
    }
  }

  /** Absorbing one more vector. */
  lemma AnnouncedSnoc(names: seq<Name>, history: seq<Counters>, stored: Counters)
    requires SameWidth(history, |names|) && |stored| == |names|
    ensures SameWidth(history + [stored], |names|)
    ensures Announced(names, history + [stored])
         == if history == [] then []
            else Announced(names, history) + Queued(News(names, history[|history| - 1], stored))
  {
    AnnouncedBefore(names, history, stored, |history|);
  }

  lemma {:induction false} AnnouncedSound(names: seq<Name>, history: seq<Counters>, k: nat, n: Notification)
    requires SameWidth(history, |names|) && k <= |history| && n in AnnouncedUpTo(names, history, k)
    ensures n != [] && exists j :: 0 < j < k && n == News(names, history[j - 1], history[j])
  {
    if n in AnnouncedUpTo(names, history, k - 1) {
      AnnouncedSound(names, history, k - 1, n);
    } else {
      assert n == News(names, history[k - 1 - 1], history[k - 1]);
    }
  }

  /** How much counter `i` has risen over the first `k` vectors, steps down counting as nothing. */
  function Rises(history: seq<Counters>, i: nat, k: nat): nat
    requires k <= |history| && forall j :: 0 <= j < |history| ==> i < |history[j]|
  {
    if k <= 1 then 0 else Rises(history, i, k - 1) + Raised(history[k - 1][i], history[k - 2][i])
  }

  ghost predicate NonDecreasingUpTo(history: seq<Counters>, i: nat, n: nat)
    requires n <= |history| && forall j :: 0 <= j < |history| ==> i < |history[j]|
  {
    forall j, k :: 0 <= j <= k < n ==> history[j][i] <= history[k][i]
  }

  ghost predicate NonDecreasing(history: seq<Counters>, i: nat)
    requires forall j :: 0 <= j < |history| ==> i < |history[j]|
  {
    NonDecreasingUpTo(history, i, |history|)
  }

  lemma {:induction false} Telescopes(history: seq<Counters>, i: nat, k: nat)
    requires 0 < k <= |history| && forall j :: 0 <= j < |history| ==> i < |history[j]|
    ensures Rises(history, i, k) >= history[k - 1][i] as int - history[0][i] as int
    ensures Rises(history, i, k) == history[k - 1][i] as int - history[0][i] as int
       <==> NonDecreasingUpTo(history, i, k)
  {
    if k > 1 {
      Telescopes(history, i, k - 1);
      assert NonDecreasingUpTo(history, i, k)
        <==> NonDecreasingUpTo(history, i, k - 1) && history[k - 2][i] <= history[k - 1][i];
    }
  }

  /** Rises of the first `m` counters that are registered under `name`, over the first `k` vectors. */
  function RisesFor(names: seq<Name>, history: seq<Counters>, name: Name, k: nat, m: nat): nat
    requires SameWidth(history, |names|) && k <= |history| && m <= |names|
  {
    if m == 0 then 0
    else RisesFor(names, history, name, k, m - 1) + if names[m - 1] == name then Rises(history, m - 1, k) else 0
  }

  /** Their current values minus those of the first block. */
  function GrowthFor(names: seq<Name>, history: seq<Counters>, name: Name, m: nat): int
    requires SameWidth(history, |names|) && |history| > 0 && m <= |names|
  {
    if m == 0 then 0
    else
      GrowthFor(names, history, name, m - 1)
      + if names[m - 1] == name then history[|history| - 1][m - 1] as int - history[0][m - 1] as int else 0
  }

  lemma {:induction false} NoRisesYet(names: seq<Name>, history: seq<Counters>, name: Name, k: nat, m: nat)
    requires SameWidth(history, |names|) && k <= 1 && k <= |history| && m <= |names|
    ensures RisesFor(names, history, name, k, m) == 0
  {
    if m > 0 {
      NoRisesYet(names, history, name, k, m - 1);
    }
  }

  lemma {:induction false} RisesOnceMore(names: seq<Name>, history: seq<Counters>, name: Name, k: nat, m: nat)
    requires SameWidth(history, |names|) && 1 < k <= |history| && m <= |names|
    ensures RisesFor(names, history, name, k, m)
         == RisesFor(names, history, name, k - 1, m)
            + SumFor(names, Differences(history[k - 1], history[k - 2]), name, m)
  {
    if m > 0 {
      RisesOnceMore(names, history, name, k, m - 1);
    }
  }

  lemma CountQueued(ns: seq<Notification>, n: Notification, name: Name)
    ensures TotalIn(ns + Queued(n), name) == TotalIn(ns, name) + CountIn(n, name)
  {
    if n != [] {
      TotalSnoc(ns, n, name);
    } else {
      assert ns + [] == ns;
    }
  }

  /** One more block adds to what is announced for a name the differences of its counters. */
  lemma OneMoreBlock(names: seq<Name>, history: seq<Counters>, name: Name, k: nat)
    requires SameWidth(history, |names|) && 1 < k <= |history|
    ensures TotalIn(AnnouncedUpTo(names, history, k), name)
         == TotalIn(AnnouncedUpTo(names, history, k - 1), name)
            + SumFor(names, Differences(history[k - 1], history[k - 2]), name, |names|)
  {
    var before, news := AnnouncedUpTo(names, history, k - 1), News(names, history[k - 2], history[k - 1]);
    ReportCounts(names, Differences(history[k - 1], history[k - 2]), name, |names|);
    CountQueued(before, news, name);
  }

  /** Everything announced for a name is exactly what its counters rose. */
  lemma {:induction false} AnnouncedCounts(names: seq<Name>, history: seq<Counters>, name: Name, k: nat)
    requires SameWidth(history, |names|) && k <= |history|
    ensures TotalIn(AnnouncedUpTo(names, history, k), name) == RisesFor(names, history, name, k, |names|)
  {
    if k <= 1 {
      NoRisesYet(names, history, name, k, |names|);
    } else {
      AnnouncedCounts(names, history, name, k - 1);
      OneMoreBlock(names, history, name, k);
      RisesOnceMore(names, history, name, k, |names|);
    }
  }

  lemma {:induction false} RisesAboveGrowth(names: seq<Name>, history: seq<Counters>, name: Name, m: nat)
    requires SameWidth(history, |names|) && |history| > 0 && m <= |names|
    ensures RisesFor(names, history, name, |history|, m) >= GrowthFor(names, history, name, m)
    ensures RisesFor(names, history, name, |history|, m) == GrowthFor(names, history, name, m)
       <==> forall i :: 0 <= i < m && names[i] == name ==> NonDecreasing(history, i)
  {
    if m > 0 {
      RisesAboveGrowth(names, history, name, m - 1);
      Telescopes(history, m - 1, |history|);
    }
  }

  /** Current counters minus those of the first block, over the registrations of `name`. */
  function GrowthOf(names: seq<Name>, history: seq<Counters>, name: Name): int
    requires SameWidth(history, |names|) && |history| > 0
  {
    GrowthFor(names, history, name, |names|)
  }

  lemma NameTelescopes(names: seq<Name>, history: seq<Counters>, name: Name)
    requires SameWidth(history, |names|) && |history| > 0
    ensures TotalIn(Announced(names, history), name) >= GrowthOf(names, history, name)
    ensures TotalIn(Announced(names, history), name) == GrowthOf(names, history, name)
       <==> forall i :: 0 <= i < |names| && names[i] == name ==> NonDecreasing(history, i)
  {
    AnnouncedCounts(names, history, name, |history|);
    RisesAboveGrowth(names, history, name, |names|);
  }

  /**
    Event counts telescope: what is announced under a name adds up to the current counters minus those of the first
    block, for all names, exactly when no counter ever went down. Otherwise more is announced, never less.
   */
  lemma CountsTelescope(names: seq<Name>, history: seq<Counters>)
    requires SameWidth(history, |names|) && |history| > 0
    ensures forall name :: TotalIn(Announced(names, history), name) >= GrowthOf(names, history, name)
    ensures (forall name :: TotalIn(Announced(names, history), name) == GrowthOf(names, history, name))
       <==> (forall i :: 0 <= i < |names| ==> NonDecreasing(history, i))
  {
    forall name
      ensures TotalIn(Announced(names, history), name) >= GrowthOf(names, history, name)
      ensures (forall i :: 0 <= i < |names| ==> NonDecreasing(history, i))
          ==> TotalIn(Announced(names, history), name) == GrowthOf(names, history, name)
    {
      NameTelescopes(names, history, name);
    }
    forall i | 0 <= i < |names|
      ensures TotalIn(Announced(names, history), names[i]) == GrowthOf(names, history, names[i])
         ==> NonDecreasing(history, i)
    {
      NameTelescopes(names, history, names[i]);
    }
  }

  /** A counter that falls from 5 to 3 and climbs back to 5 after a first block of 0: 7 announced, 5 grown. */
  lemma FallCountsTwice()
    ensures var names, history := [[65]], [[0], [5], [3], [5]];
            TotalIn(Announced(names, history), [65]) == 7 && GrowthOf(names, history, [65]) == 5
  {
    var names: seq<Name>, history: seq<Counters> := [[65]], [[0], [5], [3], [5]];
    AnnouncedCounts(names, history, [65], 4);
    assert Rises(history, 0, 1) == 0;
    assert Rises(history, 0, 2) == 5;
    assert Rises(history, 0, 3) == 5;
    assert Rises(history, 0, 4) == 7;
    assert RisesFor(names, history, [65], 4, 0) == 0 == GrowthFor(names, history, [65], 0);
  }

  // ---------------------------------------------------------------- the listener's share of handleEvent

  datatype Intake = Intake(
    names: seq<Name>,
    stored: Counters,           // the counters inside eventBuffer
    result: seq<Byte>,          // resultBuffer
    first: bool,
    listening: bool,
    pending: seq<Notification>)
  {
    ghost predicate Sized() {
      names != [] && |stored| == |names| && |result| == BlockSize(names)
    }
  }

  /** resultBuffer after a block of any length has been copied over its front. */
  function Copied(result: seq<Byte>, events: seq<Byte>): (r: seq<Byte>)
    ensures |r| == |result|
    ensures |events| == |result| ==> r == events
    ensures forall k :: 0 <= k < |result| ==> r[k] == if k < |events| then events[k] else result[k]
  {
    var copyLength := Min(|events|, |result|);
    events[..copyLength] + result[copyLength..]
  }

  /** The counters inside eventBuffer once a block has been absorbed. */
  function Absorbing(s: Intake, events: seq<Byte>): (stored: Counters)
    requires s.Sized()
    ensures |stored| == |s.names|
  {
    CountersOf(s.names, Copied(s.result, events))
  }

  /** What a block adds to the queue: nothing while it only sets the baseline. */
  function Addition(s: Intake, events: seq<Byte>): seq<Notification>
    requires s.Sized()
  {
    if !s.listening || events == [] || !s.first then [] else Queued(News(s.names, s.stored, Absorbing(s, events)))
  }

  /** The region of handleEvent that holds the mutex. */
  function Received(s: Intake, events: seq<Byte>): (t: Intake)
    requires s.Sized()
    ensures t.Sized()
  {
    if !s.listening || events == [] then s
    else
      s.(stored := Absorbing(s, events), result := Copied(s.result, events), first := true,
         pending := s.pending + Addition(s, events))
  }
}
