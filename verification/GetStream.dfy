/** The body of a GetObject response, delivered in parts under flow control.

    The end of the read window is an atomic counter shared with any number of clones of the handle, which may
    be incremented at any time; the stream itself has one owner. A client that insists on aligned increments
    raises a flag, shared by all its responses, at the first that is not.
  */
module GetStream {
  import opened Arithmetic
  import opened ByteStrings
  import opened Sequences
  import opened Wrappers

  datatype BodyPart = BodyPart(offset: nat, data: Bytes)

  datatype Polled = Ready(part: BodyPart) | End | EmptyWindow | IncrementFailed

  class Flag {
    var raised: bool

    constructor ()
      ensures !raised
    {
      raised := false;
    }
  }

  /** The shared counter. */
  class BackpressureHandle {
    var windowEnd: nat
    const start: nat
    const end: nat
    const partSize: nat
    const strict: bool
    const failure: Flag

    ghost predicate Valid()
      reads this
    {
      start <= windowEnd && partSize > 0
    }

    constructor (start: nat, end: nat, initialWindow: nat, partSize: nat, strict: bool, failure: Flag)
      requires partSize > 0
      ensures Valid() && windowEnd == start + initialWindow && this.start == start && this.end == end
      ensures this.partSize == partSize && this.strict == strict && this.failure == failure
    {
      this.start, this.end, windowEnd := start, end, start + initialWindow;
      this.partSize, this.strict, this.failure := partSize, strict, failure;
    }

    /** Moves the window. The flag goes up exactly if a strict client's window now ends inside the range and not on
        a part boundary; it never comes down. */
    method IncrementReadWindow(len: nat)
      requires Valid()
      modifies this, failure
      ensures Valid() && windowEnd == old(windowEnd) + len
      ensures failure.raised <==>
                old(failure.raised) || (strict && windowEnd < end && (windowEnd - start) % partSize != 0)
    {
      windowEnd := windowEnd + len;
      if strict && windowEnd < end && (windowEnd - start) % partSize != 0 {
        failure.raised := true;
      }
    }

    /** Reads the counter and then adds the difference. Whatever other clones add in between, the window ends
        up at the desired offset or beyond. */
    method EnsureReadWindow(desired: nat, others: nat)
      requires Valid()
      modifies this, failure
      ensures Valid() && windowEnd >= desired && windowEnd >= old(windowEnd) + others
      ensures others == 0 ==> windowEnd == Max(old(windowEnd), desired)
    {
      var difference := SaturatingSub(desired, windowEnd);
      windowEnd := windowEnd + others;
      IncrementReadWindow(difference);
    }
  }

  class GetObjectResponse {
    const content: Bytes
    const start: nat
    const end: nat
    const partSize: nat
    const handle: BackpressureHandle?
    var nextOffset: nat
    var length: nat
    ghost var delivered: Bytes

    /** What has been delivered is the requested range as far as it has come, and has not run past the window by
        a whole part. */
    ghost predicate Valid()
      reads this, handle
    {
      && partSize > 0 && start <= nextOffset && nextOffset + length == end <= |content|
      && delivered == content[start..nextOffset]
      && (handle != null ==> handle.Valid() && nextOffset < handle.windowEnd + partSize)
    }

    /** An increment that was not aligned has been made by this client. */
    predicate Failed()
      reads this, handle, if handle == null then {} else {handle.failure}
    {
      handle != null && handle.failure.raised
    }

    /** A response that will deliver `range`. */
    constructor (content: Bytes, range: (nat, nat), partSize: nat, handle: BackpressureHandle?)
      requires partSize > 0 && range.0 <= range.1 <= |content|
      requires handle != null ==> handle.Valid() && handle.start == range.0
      ensures Valid() && start == nextOffset == range.0 && end == range.1 && this.content == content
      ensures this.partSize == partSize && delivered == [] && this.handle == handle
    {
      this.content, start, end, this.partSize, this.handle := content, range.0, range.1, partSize, handle;
      nextOffset, length, delivered := range.0, range.1 - range.0, [];
    }

    method PollNext() returns (r: Polled)
      requires Valid()
      modifies this
      ensures Valid()
      ensures r.IncrementFailed? <==> old(Failed())
      ensures r.End? <==> !old(Failed()) && old(length) == 0
      ensures r.EmptyWindow? <==>
                !old(Failed()) && old(length) != 0 && handle != null && old(nextOffset) >= handle.windowEnd
      ensures !r.Ready? ==> nextOffset == old(nextOffset) && delivered == old(delivered)
      ensures r.Ready? ==> r.part.offset == old(nextOffset) && r.part.data != []
      ensures r.Ready? ==> |r.part.data| == Min(partSize, old(length))
      ensures r.Ready? ==> nextOffset == old(nextOffset) + |r.part.data| && delivered == old(delivered) + r.part.data
    {
      if handle != null && handle.failure.raised {
        return IncrementFailed;
      }
      if length == 0 {
        return End;
      }
      var size := Min(partSize, length);
      if handle != null && nextOffset >= handle.windowEnd {
        return EmptyWindow;
      }
      var part := BodyPart(nextOffset, content[nextOffset..nextOffset + size]);
      JoinSlices(content, start, nextOffset, nextOffset + size);
      nextOffset, length := nextOffset + size, length - size;
      delivered := delivered + part.data;
      r := Ready(part);
    }

    /** Collects the rest of the body, or stops at the first error. */
    method Collect() returns (body: Option<Bytes>)
      requires Valid()
      modifies this
      ensures Valid()
      ensures body.Some? ==> body.value == content[old(nextOffset)..end]
      ensures body.None? <==> Failed() || (handle != null && nextOffset >= handle.windowEnd && length != 0)
    {
      var bytes: Bytes := [];
      JoinSlices(content, nextOffset, nextOffset, nextOffset);
      while true
        invariant Valid() && old(nextOffset) <= nextOffset
        invariant bytes == content[old(nextOffset)..nextOffset]
        decreases length
      {
        var polled := PollNext();
        match polled
        case End => return Some(bytes);
        case EmptyWindow => return None;
        case IncrementFailed => return None;
        case Ready(part) =>
          JoinSlices(content, old(nextOffset), part.offset, nextOffset);
          assert part.data == content[part.offset..nextOffset] by {
            PartIsSlice(content, start, part.offset, nextOffset, part.data);
          }
          bytes := bytes + part.data;
      }
    }
  }

  lemma PartIsSlice(content: Bytes, start: nat, at: nat, next: nat, data: Bytes)
    requires start <= at <= next <= |content| && |data| == next - at
    requires content[start..at] + data == content[start..next]
    ensures data == content[at..next]
  {
    JoinSlices(content, start, at, next);
    assert data == (content[start..at] + data)[at - start..];
  }

  // ----- Requests -----

  datatype Config = Config(bucket: string, partSize: nat, initialWindow: Option<nat>, strict: bool)

  datatype Stored = Stored(bytes: Bytes, etag: string)

  datatype Got = Got(response: GetObjectResponse) | NoSuchBucket | NoSuchKey | PreconditionFailed | InvalidRange

  predicate OutOfRange(range: Option<(nat, nat)>, size: nat) {
    range.Some? && (range.value.0 >= size || range.value.1 > size)
  }

  /** A request for a range of an object, or for all of it. Each refusal has its exact condition. */
  method GetObject(config: Config, objects: map<string, Stored>, failure: Flag, bucket: string, key: string,
                   ifMatch: Option<string>, range: Option<(nat, nat)>)
    returns (r: Got)
    requires config.partSize > 0 && (range.Some? ==> range.value.0 <= range.value.1)
    ensures r.NoSuchBucket? <==> bucket != config.bucket
    ensures r.NoSuchKey? <==> bucket == config.bucket && key !in objects
    ensures r.PreconditionFailed? <==>
              bucket == config.bucket && key in objects && ifMatch.Some? && ifMatch.value != objects[key].etag
    ensures r.InvalidRange? <==>
              && bucket == config.bucket && key in objects && (ifMatch.Some? ==> ifMatch.value == objects[key].etag)
              && range.Some? && (range.value.0 >= |objects[key].bytes| || range.value.1 > |objects[key].bytes|)
    ensures r.Got? ==>
              var g := r.response;
              && fresh(g) && g.Valid() && g.content == objects[key].bytes && g.delivered == []
              && (g.start, g.end) == (if range.Some? then range.value else (0, |g.content|))
              && g.partSize == config.partSize && (g.handle == null <==> config.initialWindow.None?)
              && (g.handle != null ==>
                    && g.handle.windowEnd == g.start + config.initialWindow.value
                    && g.handle.start == g.start && g.handle.end == g.end && g.handle.partSize == config.partSize
                    && g.handle.strict == config.strict && g.handle.failure == failure)
  {
    if bucket != config.bucket {
      return NoSuchBucket;
    }
    if key !in objects {
      return NoSuchKey;
    }
    var o := objects[key];
    if ifMatch.Some? && ifMatch.value != o.etag {
      return PreconditionFailed;
    }
    if OutOfRange(range, |o.bytes|) {
      return InvalidRange;
    }
    var (start, end) := if range.Some? then range.value else (0, |o.bytes|);
    var handle: BackpressureHandle? := null;
    if config.initialWindow.Some? {
      handle := new BackpressureHandle(start, end, config.initialWindow.value, config.partSize, config.strict, failure);
    }
    var response := new GetObjectResponse(o.bytes, (start, end), config.partSize, handle);
    r := Got(response);
  }

  // ----- Any interleaving -----

  /** What can happen to a response: its owner polls it, a clone of its handle moves the window, or takes one of the
      two steps of ensuring a window: loading the counter, and adding what was missing then. */
  datatype Action = Poll | Increment(len: nat) | Load(clone: nat, desired: nat) | Add(clone: nat)

  /** The offset that a clone has loaded the counter for and not yet added to. */
  function Asked(actions: seq<Action>, n: nat, clone: nat): Option<nat>
    requires n <= |actions|
    decreases n
  {
    if n == 0 then None
    else
      match actions[n - 1]
      case Load(c, desired) => if c == clone then Some(desired) else Asked(actions, n - 1, clone)
      case Add(c) => if c == clone then None else Asked(actions, n - 1, clone)
      case _ => Asked(actions, n - 1, clone)
  }

  function Bodies(parts: seq<BodyPart>): Bytes {
    if parts == [] then [] else Bodies(parts[..|parts| - 1]) + parts[|parts| - 1].data
  }

  ghost predicate Contiguous(parts: seq<BodyPart>, start: nat) {
    forall i | 0 <= i < |parts| :: parts[i].data != [] && parts[i].offset == start + |Bodies(parts[..i])|
  }

  /** What the clones have missing covers what they were asked for, however the window has moved since. */
  ghost predicate Covered(actions: seq<Action>, n: nat, missing: map<nat, nat>, windowEnd: nat)
    requires n <= |actions|
  {
    forall c: nat :: Asked(actions, n, c).Some? ==> c in missing && Asked(actions, n, c).value <= windowEnd + missing[c]
  }

  /** No action has shrunk the window, and each second step of an ensure call has left it where it was asked to be
      or beyond. */
  ghost predicate Granted(actions: seq<Action>, windows: seq<nat>, n: nat)
    requires n <= |actions| && n < |windows|
  {
    && (forall i | 0 <= i < n :: windows[i] <= windows[i + 1])
    && (forall i | 0 <= i < n && actions[i].Add? && Asked(actions, i, actions[i].clone).Some? ::
          Asked(actions, i, actions[i].clone).value <= windows[i + 1])
  }

  /** Polls, increments and both steps of ensure calls in any order: the parts delivered are contiguous and form a
      prefix of the requested range, the window never shrinks, an ensure call leaves it at least where it was asked
      to be, and delivery never gets a whole part past it. */
  method Interleave(content: Bytes, range: (nat, nat), partSize: nat, initialWindow: nat, strict: bool,
                    actions: seq<Action>)
    returns (parts: seq<BodyPart>, windows: seq<nat>)
    requires partSize > 0 && range.0 <= range.1 <= |content|
    ensures Contiguous(parts, range.0)
    ensures range.0 + |Bodies(parts)| <= range.1 && Bodies(parts) == content[range.0..range.0 + |Bodies(parts)|]
    ensures |windows| == |actions| + 1 && windows[0] == range.0 + initialWindow && Granted(actions, windows, |actions|)
    ensures range.0 + |Bodies(parts)| < windows[|actions|] + partSize
  {
    hide Contiguous, Bodies, Covered, Asked, Granted;
    NothingDelivered(range.0);
    var failure := new Flag();
    var handle := new BackpressureHandle(range.0, range.1, initialWindow, partSize, strict, failure);
    var response := new GetObjectResponse(content, range, partSize, handle);
    var missing: map<nat, nat> := map[];
    parts, windows := [], [handle.windowEnd];
    NothingAsked(actions, handle.windowEnd);
    for n := 0 to |actions|
      invariant response.Valid() && response.handle == handle && handle.failure == failure
      invariant fresh(response) && fresh(handle) && fresh(failure)
      invariant response.start == range.0 && response.end == range.1 && response.content == content
      invariant response.partSize == partSize && response.delivered == Bodies(parts)
      invariant Contiguous(parts, range.0) && Covered(actions, n, missing, handle.windowEnd)
      invariant |windows| == n + 1 && windows[0] == range.0 + initialWindow && windows[n] == handle.windowEnd
      invariant Granted(actions, windows, n)
    {
      ghost var was, wasMissing := handle.windowEnd, missing;
      match actions[n] {
        case Poll =>
          var polled := response.PollNext();
          if polled.Ready? {
            PartAdded(parts, polled.part, range.0);
            parts := parts + [polled.part];
          }
        case Increment(len) => handle.IncrementReadWindow(len);
        case Load(clone, desired) => missing := missing[clone := SaturatingSub(desired, handle.windowEnd)];
        case Add(clone) =>
          if clone in missing {
            handle.IncrementReadWindow(missing[clone]);
          }
      }
      StaysCovered(actions, n, wasMissing, was, missing, handle.windowEnd);
      StaysGranted(actions, windows, n, handle.windowEnd);
      windows := windows + [handle.windowEnd];
    }
    Delivered(content, range.0, response.nextOffset, parts);
  }

  lemma StaysGranted(actions: seq<Action>, windows: seq<nat>, n: nat, to: nat)
    requires n < |actions| && |windows| == n + 1 && Granted(actions, windows, n) && windows[n] <= to
    requires actions[n].Add? && Asked(actions, n, actions[n].clone).Some? ==>
               Asked(actions, n, actions[n].clone).value <= to
    ensures Granted(actions, windows + [to], n + 1)
  {
    hide Asked;
  }

  lemma NothingAsked(actions: seq<Action>, windowEnd: nat)
    ensures Covered(actions, 0, map[], windowEnd) && Granted(actions, [windowEnd], 0)
  {
  }

  lemma StaysCovered(actions: seq<Action>, n: nat, was: map<nat, nat>, from: nat, missing: map<nat, nat>, to: nat)
    requires n < |actions| && Covered(actions, n, was, from) && from <= to
    requires match actions[n]
             case Load(clone, desired) => missing == was[clone := SaturatingSub(desired, from)]
             case Add(clone) => missing == was && (clone in was ==> to == from + was[clone])
             case _ => missing == was
    ensures Covered(actions, n + 1, missing, to)
    ensures actions[n].Add? && Asked(actions, n, actions[n].clone).Some? ==>
              Asked(actions, n, actions[n].clone).value <= to
  {
    forall c: nat | Asked(actions, n + 1, c).Some?
      ensures c in missing && Asked(actions, n + 1, c).value <= to + missing[c]
    {
      if !(actions[n].Load? && actions[n].clone == c) {
        assert Asked(actions, n, c) == Asked(actions, n + 1, c);
      }
    }
  }

  lemma PartAdded(parts: seq<BodyPart>, part: BodyPart, start: nat)
    requires Contiguous(parts, start) && part.data != [] && part.offset == start + |Bodies(parts)|
    ensures Contiguous(parts + [part], start) && Bodies(parts + [part]) == Bodies(parts) + part.data
  {
    hide Bodies;
    BodiesStep(parts, part);
    assert parts[..|parts|] == parts;
  }

  lemma NothingDelivered(start: nat)
    ensures Contiguous([], start) && Bodies([]) == []
  {
  }

  lemma Delivered(content: Bytes, start: nat, next: nat, parts: seq<BodyPart>)
    requires start <= next <= |content| && Bodies(parts) == content[start..next]
    ensures |Bodies(parts)| == next - start
  {
  }

  lemma BodiesStep(parts: seq<BodyPart>, part: BodyPart)
    ensures Bodies(parts + [part]) == Bodies(parts) + part.data
    ensures forall i | 0 <= i <= |parts| :: (parts + [part])[..i] == parts[..i]
  {
    assert (parts + [part])[..|parts|] == parts;
  }
}
