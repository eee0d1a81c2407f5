/** Blob: writing in segments, reading in segments, and what survives of the bytes. */
module Blobs {
  import opened Collections

  const MAX_CHUNK := 65535
  const UNSIGNED_RANGE := 0x1_0000_0000

  datatype BlobError = SegmentTooLarge

  // ---------------------------------------------------------------- bytes and pieces

  function Joined(pieces: seq<seq<Byte>>): seq<Byte> {
    if pieces == [] then [] else Joined(pieces[..|pieces| - 1]) + pieces[|pieces| - 1]
  }

  lemma JoinedSnoc(pieces: seq<seq<Byte>>, piece: seq<Byte>)
    ensures Joined(pieces + [piece]) == Joined(pieces) + piece
  {
    assert (pieces + [piece])[..|pieces|] == pieces;
  }

  /** In the middle of a write: what has been sent and what is left are the buffer, and only full segments went out. */
  ghost predicate Underway(sent: seq<seq<Byte>>, rest: seq<Byte>, buffer: seq<Byte>) {
    && Joined(sent) + rest == buffer && Segmented(sent)
    && (forall i :: 0 <= i < |sent| - 1 ==> |sent[i]| == MAX_CHUNK)
    && (rest != [] && sent != [] ==> |sent[|sent| - 1]| == MAX_CHUNK)
  }

  lemma {:induction false} JoinedAdds(a: seq<seq<Byte>>, b: seq<seq<Byte>>)
    ensures Joined(a + b) == Joined(a) + Joined(b)
  {
    if b == [] {
      assert a + b == a && Joined(a) + [] == Joined(a);
    } else {
      var init, last := b[..|b| - 1], b[|b| - 1];
      assert a + b == (a + init) + [last];
      JoinedAdds(a, init);
      JoinedSnoc(a + init, last);
    }
  }

  /** Segments a server accepts from `write`. */
  predicate Segmented(segments: seq<seq<Byte>>) {
    forall i :: 0 <= i < |segments| ==> 1 <= |segments[i]| <= MAX_CHUNK
  }

  function Sizes(sizes: seq<nat>): nat {
    if sizes == [] then 0 else Sizes(sizes[..|sizes| - 1]) + sizes[|sizes| - 1]
  }

  /** The server's side of a blob: what has been put, and how far a reader of the stored bytes has got. */
  class Handle {
    var segments: seq<seq<Byte>>
    var position: nat

    ghost predicate Valid()
      reads this
    {
      position <= |Joined(segments)|
    }

    constructor ()
      ensures Valid() && segments == [] && position == 0
    {
      segments, position := [], 0;
    }

    method PutSegment(data: seq<Byte>)
      requires Valid()
      modifies this`segments
      ensures Valid() && segments == old(segments) + [data]
    {
      JoinedSnoc(segments, data);
      segments := segments + [data];
    }

    /**
      Copies some of the remaining bytes to `buffer[start..start + size]`: at least one while there are any and room
      is asked for. How many is the server's choice.
     */
    method GetSegment(buffer: array<Byte>, start: nat, size: nat) returns (segmentLength: nat)
      requires Valid() && start + size <= buffer.Length
      modifies this`position, buffer
      ensures Valid() && position == old(position) + segmentLength
      ensures segmentLength <= size
      ensures segmentLength == 0 <==> size == 0 || old(position) == |Joined(segments)|
      ensures buffer[..] == old(buffer[..start]) + Joined(segments)[old(position)..position]
                          + old(buffer[start + segmentLength..])
    {
      var content := Joined(segments);
      var most := Min(size, |content| - position);
      if most == 0 {
        segmentLength := 0;
        assert buffer[..] == buffer[..start] + [] + buffer[start..];
        return;
      }
      segmentLength :| 1 <= segmentLength <= most;
      forall k | 0 <= k < segmentLength {
        buffer[start + k] := content[position + k];
      }
      position := position + segmentLength;
    }
  }

  class Blob {
    const handle: Handle

    constructor (h: Handle)
      ensures handle == h
    {
      handle := h;
    }

    /** One segment; an empty one is not sent, and one whose size needs more than 32 bits is refused. */
    method WriteSegment(buffer: seq<Byte>) returns (r: Result<(), BlobError>)
      requires handle.Valid()
      modifies handle`segments
      ensures handle.Valid()
      ensures r.Err? <==> |buffer| > 0xFFFF_FFFF
      ensures handle.segments
           == if buffer == [] || r.Err? then old(handle.segments) else old(handle.segments) + [buffer]
    {
      if buffer == [] {
        return Ok(());
      }
      if |buffer| >= UNSIGNED_RANGE {
        return Err(SegmentTooLarge);
      }
      handle.PutSegment(buffer);
      r := Ok(());
    }

    /** The whole buffer, in segments of 1 to 65535 bytes. */
    method Write(buffer: seq<Byte>) returns (ghost sent: seq<seq<Byte>>)
      requires handle.Valid()
      modifies handle`segments
      ensures handle.Valid() && handle.segments == old(handle.segments) + sent
      ensures Joined(sent) == buffer && forall i :: 0 <= i < |sent| ==> 1 <= |sent[i]| <= 0xFFFF
      ensures forall i :: 0 <= i < |sent| - 1 ==> |sent[i]| == 0xFFFF
    {
      var rest := buffer;
      sent := [];
      ghost var before := handle.segments;
      assert before + [] == before && Joined([]) + buffer == buffer;
      while rest != []
        invariant handle.Valid() && handle.segments == before + sent
        invariant Underway(sent, rest, buffer)
        decreases |rest|
      {
        var chunkSize := if |rest| < MAX_CHUNK then |rest| else MAX_CHUNK;
        var r := WriteSegment(rest[..chunkSize]);
        JoinedSnoc(sent, rest[..chunkSize]);
        Regroup(Joined(sent), rest[..chunkSize], rest[chunkSize..]);
        assert rest[..chunkSize] + rest[chunkSize..] == rest;
        Regroup(before, sent, [rest[..chunkSize]]);
        sent := sent + [rest[..chunkSize]];
        rest := rest[chunkSize..];
      }
    }

    /** The size asked for goes to the server in 32 bits; a multiple of 2^32 asks for nothing. */
    method ReadSegment(buffer: array<Byte>, start: nat, size: nat) returns (segmentLength: nat)
      requires handle.Valid() && start + size <= buffer.Length
      modifies handle`position, buffer
      ensures handle.Valid() && handle.position == old(handle.position) + segmentLength
      ensures segmentLength <= size % UNSIGNED_RANGE
      ensures segmentLength == 0 <==> size % UNSIGNED_RANGE == 0 || old(handle.position) == |Joined(handle.segments)|
      ensures buffer[..] == old(buffer[..start]) + Joined(handle.segments)[old(handle.position)..handle.position]
                          + old(buffer[start + segmentLength..])
    {
      if size == 0 {
        segmentLength := 0;
        assert buffer[..] == buffer[..start] + [] + buffer[start..];
        return;
      }
      segmentLength := handle.GetSegment(buffer, start, size % UNSIGNED_RANGE);
    }

    /** One turn of read: it extends the filled front of the buffer. */
    method ReadMore(buffer: array<Byte>, start: nat, ghost was: nat, ghost filled: seq<Byte>) returns (readNow: nat)
      requires handle.Valid() && handle.position == was + start && start < buffer.Length == |filled|
      requires Filled(buffer[..], Joined(handle.segments), was, start, filled)
      modifies handle`position, buffer
      ensures handle.Valid() && handle.position == was + start + readNow && start + readNow <= buffer.Length
      ensures readNow == 0 <==> was + start == |Joined(handle.segments)|
      ensures Filled(buffer[..], Joined(handle.segments), was, start + readNow, filled)
    {
      var left := buffer.Length - start;
      var chunkSize := if left < MAX_CHUNK then left else MAX_CHUNK;
      ghost var before := buffer[..];
      assert before[..start] == buffer[..start];
      assert forall k :: start <= k <= buffer.Length ==> before[k..] == buffer[k..];
      readNow := ReadSegment(buffer, start, chunkSize);
      ReadOn(Joined(handle.segments), was, start, readNow, filled, before);
    }

    /**
      Fills the front of the buffer with everything there is room for. The count is kept in 32 bits, so it is the
      number of bytes read only when that is below 2^32.
     */
    method Read(buffer: array<Byte>) returns (totalRead: nat)
      requires handle.Valid()
      modifies handle`position, buffer
      ensures handle.Valid()
      ensures var content, was := Joined(handle.segments), old(handle.position);
              var n := Min(buffer.Length, |content| - was);
              && handle.position == was + n && totalRead == n % 0x1_0000_0000
              && (totalRead == n <==> n < UNSIGNED_RANGE)
              && Filled(buffer[..], content, was, n, old(buffer[..]))
    {
      ghost var content, was, filled := Joined(handle.segments), handle.position, buffer[..];
      totalRead := 0;
      var start := 0;
      while start < buffer.Length
        invariant handle.Valid() && handle.position == was + start && start <= buffer.Length
        invariant totalRead == start % UNSIGNED_RANGE
        invariant Filled(buffer[..], content, was, start, filled)
      {
        var readNow := ReadMore(buffer, start, was, filled);
        if readNow == 0 {
          break;
        }
        WrapAdds(start, readNow);
        totalRead := (totalRead + readNow) % UNSIGNED_RANGE;
        start := start + readNow;
      }
      assert start == Min(buffer.Length, |content| - was);
      WrapAdds(start, 0);
    }
  }

  /** Adding in 32 bits is adding and then wrapping. */
  lemma WrapAdds(a: nat, b: nat)
    ensures (a % UNSIGNED_RANGE + b) % UNSIGNED_RANGE == (a + b) % UNSIGNED_RANGE
    ensures a % UNSIGNED_RANGE <= a && (a % UNSIGNED_RANGE == a <==> a < UNSIGNED_RANGE)
  {
  }

  /** `b` is a buffer that held `filled`, after `n` bytes of the content from `was` on have been read into it. */
  ghost predicate Filled(b: seq<Byte>, content: seq<Byte>, was: nat, n: nat, filled: seq<Byte>) {
    && was + n <= |content| && n <= |b| == |filled|
    && b[..n] == content[was..was + n] && b[n..] == filled[n..]
  }

  /** Bytes that continue a filled front continue it. */
  lemma ReadOn(content: seq<Byte>, was: nat, start: nat, more: nat, filled: seq<Byte>, before: seq<Byte>)
    requires was + start + more <= |content| && start + more <= |filled|
    requires Filled(before, content, was, start, filled)
    ensures Filled(before[..start] + content[was + start..was + start + more] + before[start + more..],
              content, was, start + more, filled)
  {
    var after := before[..start] + content[was + start..was + start + more] + before[start + more..];
    assert after[..start + more] == content[was..was + start] + content[was + start..was + start + more];
    assert before[start + more..] == before[start..][more..] == filled[start..][more..];
  }

  lemma FilledPrefix(b: seq<Byte>, content: seq<Byte>, was: nat, n: nat, filled: seq<Byte>, k: nat)
    requires Filled(b, content, was, n, filled) && k <= n
    ensures b[..k] == content[was..was + k]
  {
    assert b[..k] == b[..n][..k] && content[was..was + k] == content[was..was + n][..k];
  }

  /** Any number of writes. */
  method WriteAll(blob: Blob, pieces: seq<seq<Byte>>)
    requires blob.handle.Valid()
    modifies blob.handle`segments
    ensures blob.handle.Valid() && Joined(blob.handle.segments) == old(Joined(blob.handle.segments)) + Joined(pieces)
  {
    ghost var start := Joined(blob.handle.segments);
    assert start + Joined(pieces[..0]) == start;
    for i := 0 to |pieces|
      invariant blob.handle.Valid() && Joined(blob.handle.segments) == start + Joined(pieces[..i])
    {
      ghost var before := blob.handle.segments;
      ghost var sent := blob.Write(pieces[i]);
      JoinedAdds(before, sent);
      assert pieces[..i + 1] == pieces[..i] + [pieces[i]];
      JoinedSnoc(pieces[..i], pieces[i]);
      Regroup(start, Joined(pieces[..i]), pieces[i]);
    }
    assert pieces[..|pieces|] == pieces;
  }

  /** How many of `total` bytes the i-th of these reads gets. */
  function Got(sizes: seq<nat>, total: nat, i: nat): nat
    requires i < |sizes|
  {
    Min(sizes[i], total - Min(Sizes(sizes[..i]), total))
  }

  /** No read gets 2^32 bytes or more, so that every returned count is the number of bytes read. */
  ghost predicate CountsFit(sizes: seq<nat>, total: nat, k: nat)
    requires k <= |sizes|
  {
    forall i :: 0 <= i < k ==> Got(sizes, total, i) < UNSIGNED_RANGE
  }

  /** The bytes collected so far are those before `position`, or fewer if some count did not fit. */
  ghost predicate Collected(bytes: seq<Byte>, content: seq<Byte>, position: nat, fit: bool) {
    && |bytes| <= position <= |content|
    && (if fit then bytes == content[..position] else |bytes| < position)
  }

  lemma CollectMore(bytes: seq<Byte>, content: seq<Byte>, position: nat, fit: bool, n: nat)
    requires Collected(bytes, content, position, fit) && position + n <= |content|
    ensures Collected(bytes + content[position..position + n % UNSIGNED_RANGE], content, position + n,
              fit && n < UNSIGNED_RANGE)
  {
    WrapAdds(n, 0);
    if fit && n < UNSIGNED_RANGE {
      assert content[..position] + content[position..position + n] == content[..position + n];
    }
  }

  lemma NextPosition(sizes: seq<nat>, total: nat, i: nat)
    requires i < |sizes|
    ensures var was, now := Min(Sizes(sizes[..i]), total), Min(Sizes(sizes[..i + 1]), total);
            now == was + Got(sizes, total, i) == Min(was + sizes[i], total)
    ensures CountsFit(sizes, total, i + 1) <==> CountsFit(sizes, total, i) && Got(sizes, total, i) < UNSIGNED_RANGE
  {
    assert sizes[..i + 1][..i] == sizes[..i];
  }

  /** One more read of `size` bytes: as many of the bytes it got as its 32-bit count says are added to `bytes`. */
  method ReadInto(blob: Blob, size: nat, bytes: seq<Byte>, ghost fit: bool) returns (all: seq<Byte>)
    requires blob.handle.Valid() && Collected(bytes, Joined(blob.handle.segments), blob.handle.position, fit)
    modifies blob.handle`position
    ensures blob.handle.Valid()
    ensures blob.handle.position == Min(old(blob.handle.position) + size, |Joined(blob.handle.segments)|)
    ensures Collected(all, Joined(blob.handle.segments), blob.handle.position,
              fit && blob.handle.position - old(blob.handle.position) < UNSIGNED_RANGE)
  {
    var buffer := new Byte[size](_ => 0);
    ghost var was, filled := blob.handle.position, buffer[..];
    var count := blob.Read(buffer);
    ghost var content, n := Joined(blob.handle.segments), blob.handle.position - was;
    WrapAdds(n, 0);
    FilledPrefix(buffer[..], content, was, n, filled, count);
    CollectMore(bytes, content, was, fit, n);
    assert buffer[..count] == buffer[..][..count];
    all := bytes + buffer[..count];
  }

  /** Any number of reads from the start. */
  method ReadAll(blob: Blob, sizes: seq<nat>) returns (bytes: seq<Byte>)
    requires blob.handle.Valid() && blob.handle.position == 0
    modifies blob.handle`position
    ensures blob.handle.Valid()
    ensures var content := Joined(blob.handle.segments);
            Collected(bytes, content, Min(Sizes(sizes), |content|), CountsFit(sizes, |content|, |sizes|))
  {
    ghost var content := Joined(blob.handle.segments);
    bytes := [];
    for i := 0 to |sizes|
      invariant blob.handle.Valid() && blob.handle.position == Min(Sizes(sizes[..i]), |content|)
      invariant Collected(bytes, content, blob.handle.position, CountsFit(sizes, |content|, i))
    {
      NextPosition(sizes, |content|, i);
      bytes := ReadInto(blob, sizes[i], bytes, CountsFit(sizes, |content|, i));
    }
    assert sizes[..|sizes|] == sizes;
  }

  /**
    Lossless: whatever way the bytes are split into writes, and whatever sizes they are read back in, the reads return
    them in order, as many as were asked for, exactly when no single read gets 2^32 bytes or more.
   */
  method WriteThenRead(pieces: seq<seq<Byte>>, sizes: seq<nat>) returns (bytes: seq<Byte>)
    ensures bytes == Joined(pieces)[..Min(Sizes(sizes), |Joined(pieces)|)]
       <==> CountsFit(sizes, |Joined(pieces)|, |sizes|)
  {
    var handle := new Handle();
    var blob := new Blob(handle);
    WriteAll(blob, pieces);
    assert [] + Joined(pieces) == Joined(pieces);
    bytes := ReadAll(blob, sizes);
  }
}
