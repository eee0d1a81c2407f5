/** EventListener's object: the block it builds, the counters it decodes in place, and its regions under the mutex. */
module EventListeners {
  import opened Collections
  import opened EventBlocks
  import opened EventCounts

  datatype ArgumentError = NoEvents | NoCallback | EmptyName | LongName | TooManyEvents

  /** The constructor's checks, in its order. */
  method CheckArguments(names: seq<Name>, hasCallback: bool) returns (r: Option<ArgumentError>)
    ensures r.None? <==> Acceptable(names) && hasCallback
    ensures r == Some(NoEvents) <==> names == []
    ensures r == Some(NoCallback) <==> names != [] && !hasCallback
    ensures r == Some(EmptyName) ==>
              exists i :: 0 <= i < |names| && names[i] == [] && forall k :: 0 <= k < i ==> 1 <= |names[k]| <= 255
    ensures r == Some(LongName) ==>
              exists i :: 0 <= i < |names| && |names[i]| > 255 && forall k :: 0 <= k < i ==> 1 <= |names[k]| <= 255
    ensures r == Some(TooManyEvents) <==>
              hasCallback && |names| > 255 && forall i :: 0 <= i < |names| ==> 1 <= |names[i]| <= 255
  {
    if names == [] {
      return Some(NoEvents);
    }
    if !hasCallback {
      return Some(NoCallback);
    }
    for i := 0 to |names|
      invariant forall k :: 0 <= k < i ==> 1 <= |names[k]| <= 255
    {
      if names[i] == [] {
        return Some(EmptyName);
      }
      if |names[i]| > 255 {
        return Some(LongName);
      }
    }
    if |names| > 255 {
      return Some(TooManyEvents);
    }
    r := None;
  }

  method ReadUint32LE(data: array<Byte>, at: nat) returns (v: Uint32)
    requires at + 4 <= data.Length
    ensures v == Word(data[..], at)
  {
    v := Word(data[..], at);
  }

  method WriteUint32LE(data: array<Byte>, at: nat, value: Uint32)
    requires at + 4 <= data.Length
    modifies data
    ensures data[..] == Overwrite(old(data[..]), at, value)
  {
    data[at] := value % 256;
    data[at + 1] := value / 0x100 % 256;
    data[at + 2] := value / 0x1_0000 % 256;
    data[at + 3] := value / 0x100_0000 % 256;
  }

  function Zeroed(n: nat): seq<Uint32> { seq(n, _ => 0) }

  class EventListener {
    const eventNames: seq<Name>
    const eventBuffer: array<Byte>
    const resultBuffer: array<Byte>
    const rawCounts: array<Uint32>
    const countOffsets: array<nat>
    var pendingNotifications: seq<Notification>
    var listening: bool
    var running: bool
    var first: bool

    ghost predicate Allocated()
      reads this
    {
      && Acceptable(eventNames)
      && eventBuffer != resultBuffer
      && eventBuffer.Length == resultBuffer.Length == BlockSize(eventNames)
      && rawCounts.Length == countOffsets.Length == |eventNames|
    }

    /** The counters inside eventBuffer. */
    ghost function Stored(): Counters
      reads this, eventBuffer
      requires Allocated()
    {
      CountersOf(eventNames, eventBuffer[..])
    }

    /** eventBuffer is always a well-formed block of the registered names, whatever has been decoded into it. */
    ghost predicate Valid()
      reads this, eventBuffer, countOffsets
    {
      && Allocated()
      && eventBuffer[..] == Block(eventNames, Stored())
      && forall i :: 0 <= i < |eventNames| ==> countOffsets[i] == CounterAt(eventNames, i)
    }

    ghost function State(): (s: Intake)
      reads this, eventBuffer, resultBuffer, countOffsets
      requires Valid()
      ensures s.Sized()
    {
      Intake(eventNames, Stored(), resultBuffer[..], first, listening, pendingNotifications)
    }

    /** Builds the event block with a moving pointer; the buffer is filled to its last byte. */
    constructor (names: seq<Name>)
      requires Acceptable(names)
      ensures Valid() && eventNames == names && eventBuffer[..] == Block(names, Zeroed(|names|))
      ensures Stored() == Zeroed(|names|) && resultBuffer[..] == ZeroBytes(BlockSize(names))
      ensures listening && running && !first && pendingNotifications == []
      ensures fresh(eventBuffer) && fresh(resultBuffer) && fresh(rawCounts) && fresh(countOffsets)
    {
      eventNames := names;
      var bufferLength := BlockLength(names);
      eventBuffer := new Byte[bufferLength](_ => 0);
      resultBuffer := new Byte[bufferLength](_ => 0);
      rawCounts := new Uint32[|names|](_ => 0);
      countOffsets := new nat[|names|](_ => 0);
      pendingNotifications, listening, running, first := [], true, true, false;
      new;
      FillBlock(names, eventBuffer, countOffsets);
      BlockCounters(names, Zeroed(|names|));
    }

    /** One turn of decodeEventCounts; both offsets are always in range. */
    method DecodeCounter(i: nat, ghost counts: Counters)
      requires Allocated() && i < |eventNames| == |counts| && countOffsets[i] == CounterAt(eventNames, i)
      requires eventBuffer[..] == Block(eventNames, counts)
      modifies eventBuffer, rawCounts
      ensures eventBuffer[..] == Block(eventNames, counts[i := CounterOf(eventNames, resultBuffer[..], i)])
      ensures rawCounts[..] == old(rawCounts[..])[i := Raised(CounterOf(eventNames, resultBuffer[..], i), counts[i])]
    {
      var offset := countOffsets[i];
      CounterInside(eventNames, i);
      assert offset + 4 <= resultBuffer.Length && offset + 4 <= eventBuffer.Length;
      var newValue := ReadUint32LE(resultBuffer, offset);
      var oldValue := ReadUint32LE(eventBuffer, offset);
      CounterInBlock(eventNames, counts, i);
      rawCounts[i] := if newValue >= oldValue then newValue - oldValue else 0;
      WriteUint32LE(eventBuffer, offset, newValue);
      WriteCounter(eventNames, counts, i, |eventNames|, newValue);
    }

    /** Diffs the received counters against the stored ones and overwrites the stored ones in place. */
    method DecodeEventCounts()
      requires Valid()
      modifies eventBuffer, rawCounts
      ensures Valid()
      ensures Stored() == CountersOf(eventNames, resultBuffer[..])
      ensures rawCounts[..] == Differences(CountersOf(eventNames, resultBuffer[..]), old(Stored()))
      ensures forall i :: 0 <= i < |eventNames| ==> rawCounts[i] == Max(0, Stored()[i] as int - old(Stored())[i])
    {
      ghost var news, olds := CountersOf(eventNames, resultBuffer[..]), Stored();
      ghost var mixed := olds;
      for i := 0 to |eventNames|
        invariant |mixed| == |olds| && eventBuffer[..] == Block(eventNames, mixed)
        invariant forall k :: 0 <= k < i ==> mixed[k] == news[k] && rawCounts[..][k] == Raised(news[k], olds[k])
        invariant forall k :: i <= k < |olds| ==> mixed[k] == olds[k]
      {
        DecodeCounter(i, mixed);
        mixed := mixed[i := news[i]];
      }
      assert mixed == news;
      BlockCounters(eventNames, news);
    }

    /** handleEvent under the mutex; `notify` says whether notify_one follows. */
    method HandleEvent(events: seq<Byte>) returns (notify: bool, shouldRequeue: bool)
      requires Valid()
      modifies this`pendingNotifications, this`first, eventBuffer, resultBuffer, rawCounts
      ensures Valid() && State() == Received(old(State()), events)
      ensures notify <==> |pendingNotifications| > |old(pendingNotifications)|
      ensures shouldRequeue <==> listening && events != []
      ensures !listening || events == [] ==> State() == old(State())
      ensures listening && events != [] ==> Stored() == CountersOf(eventNames, resultBuffer[..])
      ensures listening && events != [] ==>
        forall k :: 0 <= k < resultBuffer.Length ==>
          resultBuffer[k] == if k < |events| then events[k] else old(resultBuffer[k])
    {
      notify, shouldRequeue := false, false;
      if !listening {
        return;
      }
      var copyLength := Min(|events|, Min(eventBuffer.Length, resultBuffer.Length));
      if copyLength == 0 {
        return;
      }
      CopyOver(resultBuffer, events, copyLength);
      DecodeEventCounts();
      var counts := CollectCounts();
      notify := Enqueue(counts);
      shouldRequeue := listening;
    }

    /** The first block only sets the baseline; later ones are queued unless nothing happened. */
    method Enqueue(counts: Notification) returns (notify: bool)
      modifies this`pendingNotifications, this`first
      ensures first && notify == (old(first) && counts != [])
      ensures pendingNotifications == if notify then old(pendingNotifications) + [counts] else old(pendingNotifications)
    {
      notify := false;
      if first {
        if counts != [] {
          pendingNotifications := pendingNotifications + [counts];
          notify := true;
        }
      } else {
        first := true;
      }
    }

    /** The loop that keeps the non-zero counts. */
    method CollectCounts() returns (counts: Notification)
      requires Valid()
      ensures counts == Report(eventNames, rawCounts[..], |eventNames|)
    {
      counts := [];
      for i := 0 to |eventNames|
        invariant counts == Report(eventNames, rawCounts[..], i)
      {
        var value := rawCounts[i];
        if value != 0 {
          counts := counts + [EventCount(eventNames[i], value)];
        }
      }
    }

    /** A callback that cannot queue its events again; `notify` says whether notify_all follows. */
    method GiveUp() returns (notify: bool)
      modifies this`listening
      ensures !listening && notify == old(listening)
    {
      notify := listening;
      if listening {
        listening := false;
      }
    }

    /** One turn of dispatchLoop after its wait: the front of the queue, or the end of the loop. */
    method TakeNext() returns (notification: Option<Notification>)
      requires pendingNotifications != [] || !listening
      modifies this`pendingNotifications
      ensures old(pendingNotifications) == [] ==> notification.None? && pendingNotifications == []
      ensures old(pendingNotifications) != [] ==>
                notification.Some? && old(pendingNotifications) == [notification.value] + pendingNotifications
    {
      if pendingNotifications == [] {
        return None;
      }
      notification := Some(pendingNotifications[0]);
      pendingNotifications := pendingNotifications[1..];
    }

    /**
      dispatchLoop with nobody else at work: it delivers the whole queue, in order, and then ends when listening is over
      and has to wait when it is not.
     */
    method DispatchLoop() returns (delivered: seq<Notification>, ended: bool)
      modifies this`pendingNotifications
      ensures delivered == old(pendingNotifications) && pendingNotifications == []
      ensures ended <==> !listening
    {
      delivered, ended := [], false;
      while pendingNotifications != [] || !listening
        invariant delivered + pendingNotifications == old(pendingNotifications)
        decreases |pendingNotifications|
      {
        var notification := TakeNext();
        if notification.None? {
          ended := true;
          break;
        }
        delivered := delivered + [notification.value];
      }
    }

    /** stop() with nobody else at work: the rest is delivered before the queue is cleared; a second stop is idle. */
    method Stop() returns (delivered: seq<Notification>)
      modifies this`listening, this`running, this`pendingNotifications
      ensures !running && (old(running) ==> !listening && pendingNotifications == [])
      ensures delivered == if old(running) then old(pendingNotifications) else []
      ensures !old(running) ==> listening == old(listening) && pendingNotifications == old(pendingNotifications)
    {
      delivered := [];
      if !running {
        return;
      }
      listening := false;
      var ended;
      delivered, ended := DispatchLoop();
      pendingNotifications := [];
      running := false;
    }
  }

  /** memcpy to the front of a buffer. */
  method CopyOver(buffer: array<Byte>, events: seq<Byte>, copyLength: nat)
    requires copyLength == Min(|events|, buffer.Length)
    modifies buffer
    ensures buffer[..] == Copied(old(buffer[..]), events)
  {
    forall k | 0 <= k < copyLength {
      buffer[k] := events[k];
    }
  }

  /** `bufferLength`, summed name by name. */
  method BlockLength(names: seq<Name>) returns (bufferLength: nat)
    ensures bufferLength == BlockSize(names)
  {
    bufferLength := 1;
    for i := 0 to |names|
      invariant bufferLength == FieldStart(names, i)
    {
      bufferLength := bufferLength + 1 + |names[i]| + 4;
    }
  }

  function ZeroBytes(n: nat): seq<Byte> { seq(n, _ => 0) }

  /** Length byte and name at `ptr`; the counter behind them is left as it is. */
  method WriteField(buffer: array<Byte>, start: nat, name: Name) returns (ptr: nat)
    requires start + |name| + 5 <= buffer.Length && |name| <= 255
    modifies buffer
    ensures ptr == start + 1 + |name|
    ensures buffer[..] == old(buffer[..start]) + [|name|] + name + old(buffer[ptr..])
  {
    ptr := start;
    buffer[ptr] := |name|;
    ptr := ptr + 1;
    forall k | 0 <= k < |name| {
      buffer[ptr + k] := name[k];
    }
    ptr := ptr + |name|;
  }

  /** One turn of the construction loop over memory that is still zero from `start` on. */
  method AddField(buffer: array<Byte>, ghost done: seq<Byte>, start: nat, name: Name) returns (ptr: nat)
    requires start == |done| && start + |name| + 5 <= buffer.Length && |name| <= 255
    requires buffer[..] == done + ZeroBytes(buffer.Length - start)
    modifies buffer
    ensures ptr == start + 1 + |name|
    ensures buffer[..] == (done + Field(name, 0)) + ZeroBytes(buffer.Length - ptr - 4)
  {
    assert buffer[..][..start] == done;
    assert buffer[..][start + 1 + |name|..] == ZeroBytes(buffer.Length - start - 1 - |name|);
    ptr := WriteField(buffer, start, name);
  }

  /** The construction loop over zeroed memory. */
  method FillBlock(names: seq<Name>, buffer: array<Byte>, countOffsets: array<nat>)
    requires Acceptable(names) && buffer.Length == BlockSize(names) && countOffsets.Length == |names|
    requires buffer[..] == ZeroBytes(buffer.Length)
    modifies buffer, countOffsets
    ensures buffer[..] == Block(names, Zeroed(|names|))
    ensures forall i :: 0 <= i < |names| ==> countOffsets[i] == CounterAt(names, i)
  {
    ghost var zeros := Zeroed(|names|);
    StartsGrow(names, 0, |names|);
    buffer[0] := 1;
    var ptr := 1;
    for i := 0 to |names|
      invariant ptr == FieldStart(names, i) <= buffer.Length
      invariant buffer[..] == Fields(names, zeros, i) + ZeroBytes(buffer.Length - ptr)
      invariant forall k :: 0 <= k < i ==> countOffsets[k] == CounterAt(names, k)
    {
      StartsGrow(names, i + 1, |names|);
      ptr := AddField(buffer, Fields(names, zeros, i), ptr, names[i]);
      countOffsets[i] := ptr;
      ptr := ptr + 4;
    }
    assert buffer[..] == Fields(names, zeros, |names|) + [];
  }

  /** The counters of a block are those it was made with. */
  lemma BlockCounters(names: seq<Name>, counts: Counters)
    requires |names| == |counts|
    ensures CountersOf(names, Block(names, counts)) == counts
  {
    forall i | 0 <= i < |names| ensures CounterOf(names, Block(names, counts), i) == counts[i] {
      CounterInBlock(names, counts, i);
    }
  }
}
