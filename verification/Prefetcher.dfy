/** The prefetcher of one open file: sequential reads, forward seeks that consume data, backward seeks that
    push data back, and resets.

    What the network does is a parameter of each read: which parts a newly spawned stream delivers (in any
    sizes, in order or not, up to any failure), and how far it has come. Nothing is assumed about order:
    parts that were not corrupted on the way are honest about the bytes they carry, and the prefetcher checks where
    they belong.
  */
module Prefetcher {
  import opened ByteStrings
  import opened Arithmetic
  import opened Backpressure
  import opened ChecksummedBytes
  import opened Crc32c
  import opened Parts
  import opened Pieces
  import opened RequestTasks
  import opened SeekAccounts
  import opened SeekWindows
  import opened Wrappers

  /** What the environment does during one call. */
  datatype Env = Env(deliveries: seq<Delivery>, clientWindow: Option<nat>, received: nat -> nat, available: nat -> nat)

  /** What a stream from offset `at` may deliver: parts that are honest unless they were corrupted, and no more
      bytes than were asked for. */
  ghost predicate HonestStream(env: Env, at: nat, id: ObjectId, content: Bytes) {
    && at <= |content|
    && GoodDeliveries(env.deliveries)
    && |Arrivals(env.deliveries)| <= |content| - at
    && forall i | 0 <= i < |Arrivals(env.deliveries)| :: HonestCell(Arrivals(env.deliveries)[i], id, content)
  }

  /** A stream none of whose parts was corrupted. */
  ghost predicate SoundStream(env: Env, at: nat, id: ObjectId, content: Bytes) {
    HonestStream(env, at, id, content) && AllUncorrupted(Delivered(env.deliveries))
  }

  /** A stream that delivers in order, as far as it gets. */
  ghost predicate OrderlyStream(env: Env, at: nat, id: ObjectId, content: Bytes) {
    HonestStream(env, at, id, content) && InOrder(Arrivals(env.deliveries), at, id, content)
  }

  /** A stream that delivers everything in order and uncorrupted, from a client set up for flow control. */
  ghost predicate FaithfulStream(env: Env, at: nat, id: ObjectId, content: Bytes) {
    && OrderlyStream(env, at, id, content) && SoundStream(env, at, id, content)
    && |Arrivals(env.deliveries)| == |content| - at
    && env.clientWindow.Some? && env.clientWindow.value != 0
  }

  lemma StreamMeans(env: Env, at: nat, id: ObjectId, content: Bytes)
    requires HonestStream(env, at, id, content)
    ensures at <= |content| && GoodDeliveries(env.deliveries)
    ensures var arrivals := Arrivals(env.deliveries);
            && |arrivals| <= |content| - at && Honest(arrivals, id, content, Delivered(env.deliveries))
            && (SoundStream(env, at, id, content) ==> AllUncorrupted(Delivered(env.deliveries)))
            && (OrderlyStream(env, at, id, content) ==> InOrder(arrivals, at, id, content))
            && (FaithfulStream(env, at, id, content) ==>
                  && SoundStream(env, at, id, content) && OrderlyStream(env, at, id, content)
                  && |arrivals| == |content| - at && env.clientWindow.Some? && env.clientWindow.value != 0)
  {
    hide HonestCell, InOrder, Arrivals, GoodDeliveries, Delivered, AllUncorrupted;
    ArrivalsAreDelivered(env.deliveries);
  }

  datatype Request = Request(offset: nat, length: nat, env: Env)

  datatype ReadResult = Data(bytes: CheckedSlice) | Error

  datatype SeekResult = Sought | NotSought | SeekError

  /** A cell that claims to come from the object carries the object's byte at its offset, if its source validates. */
  ghost predicate HonestCell(cell: Cell, id: ObjectId, content: Bytes) {
    cell.source.Sound() && cell.id == id ==> cell.offset < |content| && cell.byte == content[cell.offset]
  }

  /** All cells are honest, and were cut from the given sources. */
  ghost predicate Honest(cells: seq<Cell>, id: ObjectId, content: Bytes, sources: set<Source>) {
    forall i | 0 <= i < |cells| :: HonestCell(cells[i], id, content) && cells[i].source in sources
  }

  /** The cells claim to be the object's, one after another from offset `from`. */
  ghost predicate InOrder(cells: seq<Cell>, from: nat, id: ObjectId, content: Bytes) {
    && from + |cells| <= |content|
    && forall i | 0 <= i < |cells| :: cells[i].id == id && cells[i].offset == from + i
  }

  lemma HonestSplit(a: seq<Cell>, b: seq<Cell>, id: ObjectId, content: Bytes, sources: set<Source>)
    ensures Honest(a + b, id, content, sources) <==> Honest(a, id, content, sources) && Honest(b, id, content, sources)
  {
    hide HonestCell;
    var c := a + b;
    if Honest(c, id, content, sources) {
      forall i | 0 <= i < |a| ensures HonestCell(a[i], id, content) && a[i].source in sources {
        assert a[i] == c[i];
      }
      forall i | 0 <= i < |b| ensures HonestCell(b[i], id, content) && b[i].source in sources {
        assert b[i] == c[|a| + i];
      }
    }
  }

  lemma HonestDrop(a: seq<Cell>, n: nat, id: ObjectId, content: Bytes, sources: set<Source>)
    requires Honest(a, id, content, sources) && n <= |a|
    ensures Honest(a[n..], id, content, sources)
  {
    HonestSplit(a[..n], a[n..], id, content, sources);
    assert a == a[..n] + a[n..];
  }

  lemma InOrderSplit(a: seq<Cell>, b: seq<Cell>, from: nat, id: ObjectId, content: Bytes)
    ensures InOrder(a + b, from, id, content) <==>
            InOrder(a, from, id, content) && InOrder(b, from + |a|, id, content)
  {
    var c := a + b;
    if InOrder(c, from, id, content) {
      forall i | 0 <= i < |a| ensures a[i].id == id && a[i].offset == from + i {
        assert a[i] == c[i];
      }
      forall i | 0 <= i < |b| ensures b[i].id == id && b[i].offset == from + |a| + i {
        assert b[i] == c[|a| + i];
      }
    }
  }

  lemma InOrderDrop(a: seq<Cell>, n: nat, from: nat, id: ObjectId, content: Bytes)
    requires InOrder(a, from, id, content) && n <= |a|
    ensures InOrder(a[n..], from + n, id, content)
  {
    InOrderSplit(a[..n], a[n..], from, id, content);
    assert a == a[..n] + a[n..];
  }

  /** An honest part that passes the check on object and offset carries the object's bytes there, if it validates, and
      was cut from one of the sources. */
  lemma CheckedPartIsRight(part: Part, id: ObjectId, at: nat, content: Bytes, sources: set<Source>)
    requires part.Good() && Honest(part.Cells(), id, content, sources) && at + part.Len() <= |content|
    requires part.IntoBytes(id, at).Some?
    ensures Covers(part.data, content, at + part.Len()) && SourceOf(part.data, at) in sources
  {
    hide Checksum;
    var view, cells := part.data.View(), part.Cells();
    assert HonestCell(cells[0], id, content) && cells[0].source in sources;
    if part.data.Validates() {
      forall i | 0 <= i < |view| ensures view[i] == content[at + i] {
        assert HonestCell(cells[i], id, content);
      }
      assert view == content[at..at + part.Len()];
    }
  }

  /** A part in order passes the check. */
  lemma OrderedPartPasses(part: Part, rest: seq<Cell>, at: nat, id: ObjectId, content: Bytes)
    requires part.Good() && InOrder(part.Cells() + rest, at, id, content)
    ensures part.IntoBytes(id, at).Some?
  {
    hide Checksum;
    assert (part.Cells() + rest)[0] == part.Cells()[0];
  }

  /** Memory set aside for a seek window: its size, rounded up to whole parts. */
  function SeekWindowReservation(partSize: nat, windowSize: nat): (r: nat)
    requires partSize > 0
    ensures windowSize <= r < windowSize + partSize && r % partSize == 0
  {
    NextMultipleOf(windowSize, partSize)
  }

  datatype Config = Config(partSize: nat, initialRequestSize: nat, maxReadWindow: nat, windowMultiplier: nat,
                           maxForwardSeekWait: nat, maxBackwardSeek: nat, caching: bool) {
    /** The first window is that of the initial request or, without one, a single part. */
    function Sizes(): (sizes: WindowSizes)
      ensures Roomy() ==> sizes.initial >= 2 && sizes.min >= 2 && sizes.max >= 2
    {
      WindowSizes(if initialRequestSize > 0 then initialRequestSize else partSize,
                  partSize, maxReadWindow, windowMultiplier)
    }

    /** Windows end on part boundaries after the initial request, or anywhere if parts may come from a cache. */
    function AlignmentFrom(start: nat): (a: Alignment)
      requires partSize > 0
      ensures a.WellFormed()
    {
      if caching then Unaligned else AlignToPartSize(start + initialRequestSize, partSize)
    }

    predicate Roomy() {
      partSize >= 2 && maxReadWindow >= 2 && initialRequestSize != 1
    }
  }

  /** The first window is the initial request or, without one, one part; windows shrink to one part at least and grow
      to the largest allowed, and end on part boundaries after the initial request unless a cache may serve parts. */
  ghost predicate Configured(c: BackpressureController, config: Config, at: nat)
    reads c
  {
    && c.preferred == (if config.initialRequestSize > 0 then config.initialRequestSize else config.partSize)
    && c.windowEnd == at + c.preferred && c.min == config.partSize && c.max == config.maxReadWindow
    && c.multiplier == (if config.windowMultiplier < 2 then 2 else config.windowMultiplier)
    && c.alignment == if config.caching then Unaligned
                      else AlignToPartSize(at + config.initialRequestSize, config.partSize)
  }

  /** A request for an object from `at` on, of which nothing has been read, with the configured first window. */
  ghost predicate Pristine(t: RequestTask, limiter: Reservations, config: Config, size: nat, at: nat,
                           deliveries: seq<Delivery>)
    reads t, t.queue, t.controller
  {
    && t.Valid() && !t.queue.failed && t.controller.limiter == limiter && GoodDeliveries(deliveries)
    && at <= size && t.start == at && t.remaining == size - at && t.controller.requestEnd == size
    && t.controller.nextRead == at && t.controller.windowEnd == at + config.Sizes().initial
    && (config.partSize > 0 ==> Configured(t.controller, config, at))
    && (config.Roomy() ==> t.controller.Roomy())
    && t.queue.Ahead() == Arrivals(deliveries)
  }

  class PrefetchGetObject {
    const id: ObjectId
    const size: nat
    const config: Config
    const limiter: Reservations
    const window: SeekWindow
    var task: RequestTask?
    var runStart: nat
    var next: nat

    // What the specification keeps track of: the object's bytes; the furthest offset read since the last reset;
    // whether the current stream delivers in order, the buffers it delivers, and whether it delivers everything
    // uncorrupted; whether all streams so far delivered in order; and reservations whose release was missed.
    ghost const content: Bytes
    ghost var furthest: nat
    ghost var inOrder: bool
    ghost var sources: set<Source>
    ghost var complete: bool
    ghost var accountable: bool
    ghost var leaked: int

    ghost function Repr(): set<object>
      reads this
    {
      {this, window, limiter} + if task == null then {} else {task, task.queue, task.controller}
    }

    /** The invariant, were `at` the next offset to read. */
    ghost predicate ValidAt(at: nat)
      reads this, Repr()
    {
      && size == |content| && config.partSize > 0 && window.Valid() && window.maxSize == config.maxBackwardSeek
      && runStart <= at <= size && at <= furthest
      && WindowValidAt(at)
      && (task != null ==> TaskValidAt(task, at))
      && (task == null ==> window.Contents() == [] && inOrder && sources == {} && complete)
      && (task == null ==> runStart == at == furthest)
      && BalancedAt(at)
    }

    /** The seek window holds bytes up to `at`, none from before the run of reads began, and all of them if none
        had to be dropped. */
    ghost predicate WindowValidAt(at: nat)
      requires window.Valid()
      reads this, window
    {
      var w := window.Contents();
      && |w| <= at - runStart
      && (furthest - runStart <= window.maxSize ==> |w| == at - runStart)
      && Honest(w, id, content, sources)
      && (inOrder ==> |w| <= at && InOrder(w, at - |w|, id, content))
    }

    ghost predicate TaskValidAt(t: RequestTask, at: nat)
      reads this, t, t.queue, t.controller
    {
      && t.Valid() && !t.queue.failed && t.controller.limiter == limiter
      && t.controller.requestEnd == size && t.remaining == size - at
      && Honest(t.queue.Ahead(), id, content, sources)
      && (inOrder ==> InOrder(t.queue.Ahead(), at, id, content))
      && (complete ==> inOrder && AllUncorrupted(sources) && |t.queue.Ahead()| == size - at)
      && (config.Roomy() ==> t.controller.Roomy())
      && (accountable ==> inOrder && AccountValidAt(t, at))
    }

    /** The controller has been told of every read but not of bytes pushed back since, which are all still ahead. */
    ghost predicate AccountValidAt(t: RequestTask, at: nat)
      requires t.queue.Valid()
      reads this, t, t.queue, t.controller
    {
      && at <= t.controller.nextRead <= size
      && t.controller.nextRead - at <= |t.queue.Ahead()|
      && (config.Roomy() ==> t.controller.nextRead <= t.controller.windowEnd)
    }

    /** The handle holds the seek window's reservation, the read window ahead of `at`, and what was leaked. */
    ghost predicate BalancedAt(at: nat)
      requires config.partSize > 0
      reads this, Repr()
    {
      accountable ==>
        limiter.held == SeekWindowReservation(config.partSize, config.maxBackwardSeek) + leaked
                        + if task == null then 0 else task.controller.windowEnd - at
    }

    ghost predicate Valid()
      reads this, Repr()
    {
      ValidAt(next)
    }

    /** What dropping the current request would leave reserved. */
    ghost function Slack(): int
      reads this, Repr()
    {
      if task == null then 0
      else task.controller.windowEnd - next - SaturatingSub(task.controller.windowEnd, task.controller.nextRead)
    }

    /** Bytes pushed back of which the controller has not been told. */
    ghost function Untold(): int
      reads this, Repr()
    {
      if task == null then 0 else task.controller.nextRead - next
    }

    /** The controller knows of everything read and pushed back. */
    ghost predicate Settled()
      reads this, Repr()
    {
      && Untold() == 0
      && (task != null && config.Roomy() ==> task.controller.nextRead <= task.controller.windowEnd)
    }

    /** How far back a seek can go. */
    ghost function Reach(): nat
      reads this, window
    {
      if window.Valid() then |window.Contents()| else 0
    }

    /** The request in flight can serve a read at `offset`. */
    ghost predicate Seekable(offset: nat, env: Env)
      reads this, Repr()
    {
      && task != null
      && if offset > next then offset < task.controller.windowEnd
                               && offset < task.start + env.received(next) + config.maxForwardSeekWait
         else next - offset <= Reach()
    }

    /** The bytes the controller will not have been told of once the handle has moved to `offset`. Moving forward
        reads them again; starting over forgets them. */
    ghost function UntoldAt(offset: nat, env: Env): int
      reads this, Repr()
    {
      if Seekable(offset, env) && offset <= next then Untold() + (next - offset) else 0
    }

    /** The reservations lost by moving to `offset`: none if the request in flight is kept. */
    ghost function LostAt(offset: nat, env: Env): int
      reads this, Repr()
    {
      if Seekable(offset, env) then 0 else Slack()
    }

    constructor (id: ObjectId, size: nat, config: Config, limiter: Reservations, ghost content: Bytes)
      requires size == |content| && config.partSize > 0 && config.maxBackwardSeek > 0
      requires limiter.held == 0
      modifies limiter
      ensures Valid() && fresh(Repr() - {limiter}) && this.limiter == limiter
      ensures this.id == id && this.size == size && this.config == config && this.content == content
      ensures task == null && next == runStart == furthest == 0 && complete && accountable && leaked == 0
    {
      this.id, this.size, this.config, this.limiter := id, size, config, limiter;
      var w := new SeekWindow(config.maxBackwardSeek);
      window, task, runStart, next := w, null, 0, 0;
      this.content, furthest, inOrder, sources, complete, accountable, leaked := content, 0, true, {}, true, true, 0;
      new;
      limiter.Reserve(SeekWindowReservation(config.partSize, config.maxBackwardSeek));
    }

    // ----- Resets -----

    /** All that a reset needs of the state. */
    ghost predicate Droppable()
      reads this, Repr()
    {
      && size == |content| && config.partSize > 0 && window.Valid() && window.maxSize == config.maxBackwardSeek
      && (task != null ==> task.controller.limiter == limiter)
      && BalancedAt(next)
    }

    lemma ValidIsDroppable()
      requires Valid()
      ensures Droppable()
    {
    }

    /** Abandons the request in flight and starts over at `offset`. */
    method Reset(offset: nat)
      requires Droppable() && offset <= size
      modifies this, window, limiter
      ensures Valid() && task == null && next == runStart == furthest == offset
      ensures accountable == old(accountable) && leaked == old(leaked) + old(Slack())
    {
      hide Checksum, Flat, Stacked, Arrivals, Part.Cells, SeekWindowReservation;
      if task != null {
        ghost var slack := Slack();
        task.controller.Drop();
        leaked := leaked + slack;
      }
      task := null;
      window.Clear();
      runStart, next := offset, offset;
      furthest, inOrder, sources, complete := offset, true, {}, true;
    }

    // ----- Taking data off the stream -----

    /** Reads the next piece of the stream. */
    method TakeFromTask(length: nat, env: Env) returns (r: Option<Part>)
      requires size == |content| && config.partSize > 0 && task != null && TaskValidAt(task, next) && BalancedAt(next)
      requires 0 < length <= size - next
      modifies task, task.queue, task.controller, limiter
      ensures r.None? ==> BalancedAt(next) && !complete && task.controller.limiter == limiter
      ensures r.None? && accountable ==> Settled()
      ensures r.Some? ==> r.value.Good() && r.value.Len() <= length && Honest(r.value.Cells(), id, content, sources)
      ensures r.Some? ==> TaskValidAt(task, next + r.value.Len()) && BalancedAt(next + r.value.Len())
      ensures r.Some? && inOrder ==> r.value.IntoBytes(id, next).Some? && InOrder(r.value.Cells(), next, id, content)
      ensures r.Some? && accountable ==> task.controller.nextRead == next + r.value.Len()
    {
      hide Checksum, Flat, Stacked, Arrivals, Part.Cells, SeekWindowReservation, Honest, InOrder, SaturatingSub;
      r := task.Read(length, env.received(next), env.available(next));
      if r.Some? {
        ghost var part := r.value;
        HonestSplit(part.Cells(), task.queue.Ahead(), id, content, sources);
        if inOrder {
          OrderedPartPasses(part, task.queue.Ahead(), next, id, content);
          InOrderSplit(part.Cells(), task.queue.Ahead(), next, id, content);
        }
      }
    }

    /** Remembers a piece that ends the window at `next`. */
    method Remember(part: Part)
      requires size == |content| && window.Valid() && runStart <= next <= furthest && WindowValidAt(next)
      requires part.Good() && Honest(part.Cells(), id, content, sources)
      requires inOrder ==> InOrder(part.Cells(), next, id, content)
      modifies this`furthest, window
      ensures window.Valid() && WindowValidAt(next + part.Len())
      ensures furthest == Max(old(furthest), next + part.Len())
    {
      hide Checksum, Flat, Stacked, Arrivals, Part.Cells, Honest, InOrder;
      ghost var seen := window.Contents();
      ghost var dropped := window.Push(part);
      furthest := Max(furthest, next + part.Len());
      WindowPushed(seen, dropped, part, window.Contents(), window.maxSize, next, id, content, inOrder, sources);
    }

    /** Reads the next piece of the stream and remembers it in the seek window. The next offset is the caller's
        to move; moving it by the length of the piece restores the invariant. */
    method ReadPart(length: nat, env: Env) returns (r: Option<Part>)
      requires Valid() && task != null && 0 < length <= size - next
      modifies Repr()
      ensures task == old(task) && next == old(next) && runStart == old(runStart)
      ensures inOrder == old(inOrder) && sources == old(sources) && complete == old(complete)
      ensures accountable == old(accountable) && leaked == old(leaked)
      ensures r.None? ==> window.Valid() && BalancedAt(next) && !complete && task.controller.limiter == limiter
      ensures r.None? && accountable ==> Settled()
      ensures r.Some? ==> r.value.Good() && r.value.Len() <= length && ValidAt(next + r.value.Len())
      ensures r.Some? ==> Honest(r.value.Cells(), id, content, sources)
      ensures r.Some? && inOrder ==> r.value.IntoBytes(id, next).Some?
      ensures r.Some? && accountable ==> task.controller.nextRead == next + r.value.Len()
      ensures r.Some? ==> furthest == Max(old(furthest), next + r.value.Len())
    {
      hide Checksum, Flat, Stacked, Arrivals, Part.Cells, SeekWindowReservation, Honest, InOrder, SaturatingSub;
      r := TakeFromTask(length, env);
      if r.Some? {
        Remember(r.value);
      }
    }

    // ----- Seeking -----

    /** The state an operation may leave behind on an error: good enough to reset. */
    ghost predicate Resettable()
      reads this, Repr()
    {
      Droppable() && (accountable ==> Settled())
    }

    /** As long as no more was read than the seek window can hold, all of it can be sought back. */
    lemma ReachesBack()
      requires Valid() && furthest - runStart <= config.maxBackwardSeek
      ensures Reach() == next - runStart
    {
    }

    /** What dropping the request would leave reserved is what was pushed back and not read again. */
    lemma SlackIsUntold()
      requires Valid() && accountable && config.Roomy()
      ensures Slack() == Untold() >= 0
    {
    }

    lemma SettledHasNoSlack()
      requires Settled() && config.Roomy()
      ensures Slack() == 0
    {
    }

    /** Reads the next piece of the stream and moves past it. */
    method Skip(length: nat, env: Env) returns (read: bool)
      requires Valid() && task != null && 0 < length <= size - next
      modifies Repr()
      ensures task == old(task) && runStart == old(runStart) && leaked == old(leaked)
      ensures inOrder == old(inOrder) && sources == old(sources)
      ensures complete == old(complete) && accountable == old(accountable)
      ensures read ==> Valid() && old(next) < next <= old(next) + length && (accountable ==> Settled())
      ensures read ==> furthest == Max(old(furthest), next)
      ensures !read ==> Resettable() && !complete && next == old(next)
    {
      hide Checksum, Flat, Stacked, Arrivals, Part.Cells, SeekWindowReservation, Honest, InOrder, SaturatingSub;
      var part := ReadPart(length, env);
      read := part.Some?;
      if read {
        Advance(part.value.Len());
      }
    }

    method SeekForward(offset: nat, env: Env) returns (r: SeekResult)
      requires Valid() && next < offset < size
      modifies Repr()
      ensures task == old(task) && runStart == old(runStart) && leaked == old(leaked)
      ensures inOrder == old(inOrder) && sources == old(sources)
      ensures complete == old(complete) && accountable == old(accountable)
      ensures r.Sought? ==> Valid() && next == offset && task != null && (accountable ==> Settled())
      ensures r.Sought? ==> furthest == Max(old(furthest), offset)
      ensures r.NotSought? ==> Valid() && next == old(next) && task == old(task) && Slack() == old(Slack())
      ensures r.SeekError? ==> Resettable() && task != null && !complete
      ensures r.NotSought? <==> old(task == null || offset >= task.controller.windowEnd
                                    || offset >= task.start + env.received(next) + config.maxForwardSeekWait)
    {
      hide ValidAt, Settled, Resettable, Slack;
      if task == null {
        return NotSought;
      }
      if offset >= task.controller.windowEnd {
        return NotSought;
      }
      var available := task.start + env.received(next);
      if offset >= available + config.maxForwardSeekWait {
        return NotSought;
      }
      while next < offset
        invariant Valid() && old(next) <= next <= offset
        invariant task == old(task) && runStart == old(runStart) && leaked == old(leaked)
        invariant inOrder == old(inOrder) && sources == old(sources)
        invariant complete == old(complete) && accountable == old(accountable)
        invariant old(next) < next && accountable ==> Settled()
        invariant furthest == if old(next) < next then Max(old(furthest), next) else old(furthest)
        decreases offset - next
      {
        var read := Skip(offset - next, env);
        if !read {
          return SeekError;
        }
      }
      r := Sought;
    }

    /** Takes the last bytes of the seek window back, down to `offset`. */
    method Recall(offset: nat) returns (r: Option<seq<Part>>)
      requires size == |content| && window.Valid() && runStart <= next <= furthest && WindowValidAt(next)
      requires offset < next
      modifies window
      ensures window.Valid()
      ensures r.Some? <==> next - offset <= |old(window.Contents())|
      ensures r.None? ==> WindowValidAt(next)
      ensures r.Some? ==> runStart <= offset && WindowValidAt(offset)
      ensures r.Some? ==> AllGood(r.value) && |Flat(r.value)| == next - offset
      ensures r.Some? ==> Honest(Flat(r.value), id, content, sources)
      ensures r.Some? && inOrder ==> InOrder(Flat(r.value), offset, id, content)
    {
      hide Checksum, Flat, Part.Cells, Honest, InOrder;
      ghost var seen := window.Contents();
      r := window.ReadBack(next - offset);
      if r.Some? {
        HonestSplit(window.Contents(), Flat(r.value), id, content, sources);
        if inOrder {
          InOrderSplit(window.Contents(), Flat(r.value), next - |seen|, id, content);
        }
      }
    }

    /** Puts bytes that end at `next` back in front of the stream. */
    method GiveBack(parts: seq<Part>, offset: nat)
      requires size == |content| && config.partSize > 0 && task != null && TaskValidAt(task, next) && BalancedAt(next)
      requires offset < next && AllGood(parts) && |Flat(parts)| == next - offset
      requires Honest(Flat(parts), id, content, sources)
      requires inOrder ==> InOrder(Flat(parts), offset, id, content)
      modifies task, task.queue, limiter
      ensures TaskValidAt(task, offset) && BalancedAt(offset)
      ensures task.controller.nextRead == old(task.controller.nextRead)
    {
      hide Checksum, Flat, Stacked, Arrivals, Part.Cells, SeekWindowReservation, Honest, InOrder;
      ghost var ahead := task.queue.Ahead();
      task.PushFront(parts);
      HonestSplit(Flat(parts), ahead, id, content, sources);
      if inOrder {
        InOrderSplit(Flat(parts), ahead, offset, id, content);
      }
    }

    /** Succeeds exactly when the seek window reaches back far enough. */
    method SeekBackward(offset: nat) returns (r: SeekResult)
      requires Valid() && offset < next
      modifies Repr()
      ensures Valid()
      ensures r == if old(task) != null && old(next) - offset <= |old(window.Contents())| then Sought else NotSought
      ensures task == old(task) && runStart == old(runStart) && leaked == old(leaked)
      ensures inOrder == old(inOrder) && sources == old(sources)
      ensures complete == old(complete) && accountable == old(accountable)
      ensures furthest == old(furthest)
      ensures r.Sought? ==> next == offset && task.controller.nextRead == old(task.controller.nextRead)
      ensures r.NotSought? ==> next == old(next) && Slack() == old(Slack())
    {
      hide Checksum, Flat, Stacked, Arrivals, Part.Cells, SeekWindowReservation, Honest, InOrder, SaturatingSub;
      if task == null {
        return NotSought;
      }
      var parts := Recall(offset);
      if parts.None? {
        return NotSought;
      }
      GiveBack(parts.value, offset);
      next := offset;
      r := Sought;
    }

    // ----- Requests -----

    /** Between requests the handle holds the seek window's reservation and nothing else. */
    ghost predicate Vacant()
      reads this, window, limiter
    {
      && size == |content| && config.partSize > 0 && window.Valid() && window.maxSize == config.maxBackwardSeek
      && window.Contents() == [] && runStart == next == furthest <= size
    }

    lemma UnspawnedMeans()
      requires Valid() && task == null
      ensures Vacant() && inOrder && sources == {} && complete
      ensures accountable ==>
                limiter.held == SeekWindowReservation(config.partSize, config.maxBackwardSeek) + leaked
    {
    }

    /** Sends a request for the rest of the object. */
    method NewTask(deliveries: seq<Delivery>) returns (t: RequestTask)
      requires config.partSize > 0 && next <= size
      requires GoodDeliveries(deliveries) && |Arrivals(deliveries)| <= size - next
      modifies limiter
      ensures fresh(t) && fresh(t.queue) && fresh(t.controller)
      ensures Pristine(t, limiter, config, size, next, deliveries)
      ensures limiter.held == old(limiter.held) + config.Sizes().initial
    {
      hide Arrivals, Stacked;
      t := new RequestTask(deliveries, next, size, config.Sizes(), config.AlignmentFrom(next), limiter);
    }

    lemma SpawnedIsValid(deliveries: seq<Delivery>)
      requires Vacant() && task != null && Pristine(task, limiter, config, size, next, deliveries)
      requires GoodDeliveries(deliveries) && Honest(Arrivals(deliveries), id, content, sources)
      requires inOrder ==> InOrder(Arrivals(deliveries), next, id, content)
      requires complete ==> inOrder && AllUncorrupted(sources) && |Arrivals(deliveries)| == size - next
      requires accountable ==>
                 && inOrder
                 && limiter.held == SeekWindowReservation(config.partSize, config.maxBackwardSeek) + leaked
                                    + config.Sizes().initial
      ensures Valid() && Untold() == 0
    {
      hide SeekWindowReservation, Checksum, Stacked, Arrivals, Part.Cells, Config.Sizes;
    }

    /** Takes up a new request. */
    method Adopt(t: RequestTask, env: Env)
      requires Vacant() && task == null && Pristine(t, limiter, config, size, next, env.deliveries)
      requires HonestStream(env, next, id, content)
      requires accountable ==>
                 limiter.held == SeekWindowReservation(config.partSize, config.maxBackwardSeek) + leaked
                                 + config.Sizes().initial
      modifies this
      ensures Valid() && task == t && next == old(next) && runStart == old(runStart) && furthest == old(furthest)
      ensures leaked == old(leaked) && Untold() == 0 && sources == Delivered(env.deliveries)
      ensures FaithfulStream(env, next, id, content) ==> complete
      ensures accountable ==> old(accountable)
      ensures OrderlyStream(env, next, id, content) ==> accountable == old(accountable)
    {
      hide Checksum, Flat, Stacked, Arrivals, Part.Cells, SeekWindowReservation, Honest, InOrder, Config.Sizes, Untold;
      hide HonestStream, SoundStream, OrderlyStream, FaithfulStream, ValidAt, Pristine, Delivered, AllUncorrupted;
      StreamMeans(env, next, id, content);
      ghost var arrivals, buffers := Arrivals(env.deliveries), Delivered(env.deliveries);
      ghost var ordered := InOrder(arrivals, next, id, content);
      task, inOrder, sources, complete, accountable :=
        t, ordered, buffers, ordered && AllUncorrupted(buffers) && |arrivals| == size - next, accountable && ordered;
      SpawnedIsValid(env.deliveries);
    }

    /** Starts a request from the next offset to the end of the object. */
    method Spawn(env: Env) returns (spawned: bool)
      requires Valid() && task == null && HonestStream(env, next, id, content)
      modifies this, limiter
      ensures Valid() && next == old(next) && runStart == old(runStart) && leaked == old(leaked)
      ensures spawned == (env.clientWindow.Some? && env.clientWindow.value != 0)
      ensures spawned ==> task != null && fresh(Repr() - {this, window, limiter})
      ensures spawned ==> Pristine(task, limiter, config, size, next, env.deliveries)
      ensures spawned ==> sources == Delivered(env.deliveries)
      ensures !spawned ==> task == null && accountable == old(accountable)
      ensures FaithfulStream(env, next, id, content) ==> complete
      ensures accountable ==> old(accountable) && Untold() == 0
      ensures OrderlyStream(env, next, id, content) ==> accountable == old(accountable)
      ensures furthest == old(furthest)
    {
      hide Checksum, Flat, Stacked, Arrivals, SeekWindowReservation, Config.Sizes, GoodDeliveries, Delivered;
      hide HonestStream, SoundStream, OrderlyStream, FaithfulStream, ValidAt, Pristine;
      StreamMeans(env, next, id, content);
      UnspawnedMeans();
      if env.clientWindow.None? || env.clientWindow.value == 0 {
        return false;
      }
      var t := NewTask(env.deliveries);
      Adopt(t, env);
      spawned := true;
    }

    /** Gets ready to read at `offset`: seeks if that is possible, and otherwise starts over there. */
    method Position(offset: nat, env: Env) returns (ok: bool)
      requires Valid() && offset < size
      modifies Repr()
      ensures task == old(task) || task == null
      ensures ok ==> Valid() && next == offset
      ensures accountable == old(accountable)
      ensures !ok ==> Resettable() && task != null && !complete && complete == old(complete)
      ensures ok && task != null ==> complete == old(complete) && sources == old(sources)
      ensures ok ==> runStart == if old(Seekable(offset, env)) then old(runStart) else offset
      ensures ok ==> furthest == Max(if old(Seekable(offset, env)) then old(furthest) else offset, offset)
      ensures ok ==> if old(Seekable(offset, env)) then task == old(task) && task != null else task == null
      ensures leaked == old(leaked) + old(LostAt(offset, env))
      ensures ok && accountable ==> Untold() == old(UntoldAt(offset, env))
      ensures ok && task == null ==> old(UntoldAt(offset, env)) == 0
    {
      hide Checksum, Flat, Stacked, Arrivals, Part.Cells, SeekWindowReservation, Honest, InOrder, SaturatingSub;
      hide WindowValidAt, TaskValidAt;
      if next == offset {
        return true;
      }
      ghost var contiguous: nat := next - runStart;   // recorded as a metric, so it must not underflow
      var sought: SeekResult;
      if offset > next {
        sought := SeekForward(offset, env);
      } else {
        sought := SeekBackward(offset);
      }
      if sought.SeekError? {
        return false;
      }
      if sought.NotSought? {
        ValidIsDroppable();
        Reset(offset);
      }
      ok := true;
    }

    // ----- Reading -----

    /** Moves past a piece that has been read. */
    method Advance(length: nat)
      requires ValidAt(next + length) && task != null
      requires accountable ==> task.controller.nextRead == next + length
      modifies this`next
      ensures Valid() && next == old(next) + length && (accountable ==> Settled())
    {
      hide Checksum, Flat, Stacked, Arrivals, Part.Cells, SeekWindowReservation, Honest, InOrder, SaturatingSub;
      next := next + length;
    }

    /** A stream out of order is neither complete nor accounted for. */
    lemma DisorderIsResettable(at: nat)
      requires ValidAt(at) && task != null && !inOrder
      ensures Resettable() && !complete
    {
    }

    /** Reads the next piece of the stream, checks that it is what comes next, and moves past it. */
    method ReadChecked(length: nat, env: Env) returns (r: Option<CheckedSlice>)
      requires Valid() && task != null && 0 < length <= size - next
      modifies Repr()
      ensures task == old(task) && leaked == old(leaked)
      ensures sources == old(sources) && complete == old(complete) && accountable == old(accountable)
      ensures r.None? ==> Resettable() && !complete
      ensures r.Some? ==> Valid() && (accountable ==> Untold() == 0)
      ensures r.Some? ==> r.value.WellFormed() && 0 < r.value.Len() <= length
      ensures r.Some? ==> next == old(next) + r.value.Len() <= size
      ensures r.Some? ==> Covers(r.value, content, next) && SourceOf(r.value, old(next)) in sources
      ensures runStart == old(runStart) && (r.Some? ==> furthest == Max(old(furthest), next))
    {
      hide Checksum, Flat, Stacked, Arrivals, Part.Cells, SeekWindowReservation, Honest, InOrder, SaturatingSub;
      hide WindowValidAt, TaskValidAt, BalancedAt, Covers, SourceOf, CheckedSlice.Validates;
      var part := ReadPart(length, env);
      if part.None? {
        return None;
      }
      r := part.value.IntoBytes(id, next);
      if r.None? {
        DisorderIsResettable(next + part.value.Len());
        return;
      }
      CheckedPartIsRight(part.value, id, next, content, sources);
      Advance(r.value.Len());
    }

    /** Reads `length` bytes from the next offset on, out of the request in flight, joining pieces of the stream. */
    method Serve(length: nat, env: Env) returns (r: ReadResult)
      requires Valid() && task != null && length <= size - next
      modifies Repr()
      ensures task == old(task) && leaked == old(leaked)
      ensures sources == old(sources) && complete == old(complete) && accountable == old(accountable)
      ensures r.Data? ==> Valid() && next == old(next) + length <= |content|
      ensures r.Data? ==> Honors(r.bytes, content, old(next), next, sources)
      ensures r.Data? && accountable ==> Untold() == (if length > 0 then 0 else old(Untold()))
      ensures r.Error? ==> Resettable() && !complete
      ensures runStart == old(runStart) && (r.Data? ==> furthest == Max(old(furthest), next))
    {
      hide Checksum, ValidAt, Untold, Resettable, Extended, ExtendedAll, Laid, Covers, SourceOf, AllWellFormed;
      hide CheckedSlice.Validates, AllSound, AllUncorrupted;
      ValidSize();
      var toRead := length;
      var response := Whole([], 0);
      ghost var offset := next;
      ghost var pieces: seq<CheckedSlice> := [];
      NoPieces(content, offset, sources);
      while toRead > 0
        invariant 0 <= toRead && next + toRead == offset + length
        invariant Valid() && task == old(task) && leaked == old(leaked)
        invariant sources == old(sources) && complete == old(complete) && accountable == old(accountable)
        invariant Answers(response, pieces, content, offset, next, sources)
        invariant runStart == old(runStart) && furthest == Max(old(furthest), next)
        invariant accountable ==> Untold() == if toRead < length then 0 else old(Untold())
        decreases toRead
      {
        AnswerLength(pieces, content, offset, next, sources);
        LaidWellFormed(pieces, content, offset, next, sources);
        var bytes := ReadChecked(toRead, env);
        if bytes.None? {
          return Error;
        }
        LaidNext(pieces, bytes.value, content, offset, next, sources);
        NextPiece(pieces, bytes.value);
        pieces := pieces + [bytes.value];
        if response.Len() == 0 && bytes.value.Len() == toRead {
          FirstPiece(bytes.value);
          assert Answers(bytes.value, pieces, content, offset, next, sources);
          return Data(bytes.value);
        }
        var (extended, integrity) := Extended(response, bytes.value);
        if !integrity.Intact? {
          FailureShowsCorruption(pieces);
          CorruptIsIncomplete(pieces, offset);
          ToldIsResettable();
          return Error;
        }
        response := extended;
        toRead := toRead - bytes.value.Len();
      }
      r := Data(response);
    }

    lemma CorruptIsIncomplete(pieces: seq<CheckedSlice>, from: nat)
      requires Valid() && task != null && Laid(pieces, content, from, next, sources) && !AllSound(pieces)
      ensures !complete
    {
      hide Laid, AllSound, AllUncorrupted;
      if AllUncorrupted(sources) {
        UncorruptedPieces(pieces, content, from, next, sources);
      }
    }

    /** Once the controller knows of everything, the request can be abandoned without loss. */
    lemma ToldIsResettable()
      requires Valid() && (accountable ==> Untold() == 0)
      ensures Resettable()
    {
    }

    lemma ValidSize()
      requires Valid()
      ensures next <= size == |content| && next <= furthest
    {
    }

    /** Nothing has changed that matters to later reads or to the account. */
    twostate predicate Untouched()
      reads this, Repr()
    {
      && task == old(task) && next == old(next) && runStart == old(runStart) && furthest == old(furthest)
      && sources == old(sources) && complete == old(complete)
      && accountable == old(accountable) && leaked == old(leaked)
      && Untold() == old(Untold())
    }

    /** Where a read that succeeded has taken the handle, with the request that was in flight if that could serve it. */
    twostate predicate Moved(offset: nat, length: nat, env: Env)
      requires offset <= size
      reads this, Repr()
    {
      var kept := old(Seekable(offset, env));
      && task != null && next == offset + Min(length, size - offset)
      && (kept ==> task == old(task))
      && sources == (if kept then old(sources) else Delivered(env.deliveries))
      && runStart == (if kept then old(runStart) else offset)
      && furthest == Max(if kept then old(furthest) else offset, next)
    }

    method TryRead(offset: nat, length: nat, env: Env) returns (r: ReadResult)
      requires Valid()
      requires offset < size ==> HonestStream(env, offset, id, content)
      modifies Repr()
      ensures fresh(Repr() - old(Repr()))
      ensures r.Data? ==> Valid() && Serves(r.bytes, content, offset, length, if offset < size then sources else {})
      ensures r.Error? ==> Resettable() && offset < size
      ensures offset < size && old(complete) && FaithfulStream(env, offset, id, content) ==> r.Data? && complete
      ensures leaked == old(leaked) + if offset < size then old(LostAt(offset, env)) else 0
      ensures accountable ==> old(accountable)
      ensures offset < size && OrderlyStream(env, offset, id, content) ==> accountable == old(accountable)
      ensures offset >= size ==> Untouched()
      ensures r.Data? && accountable && offset < size ==>
                Untold() == if length > 0 then 0 else old(UntoldAt(offset, env))
      ensures r.Data? && offset < size ==> Moved(offset, length, env)
    {
      hide Checksum, ValidAt, Untold, Settled, UntoldAt, LostAt, Reach, Seekable, Resettable, Slack;
      hide Honors, Delivered, Pristine, HonestStream, SoundStream, OrderlyStream, SeekWindowReservation, BalancedAt;
      ValidSize();
      if offset >= size {
        HonorsNothing(content, size);
        return Data(Whole([], 0));
      }
      var positioned := Position(offset, env);
      if !positioned {
        return Error;
      }
      if task == null {
        var spawned := Spawn(env);
        if !spawned {
          UnspawnedIsResettable();
          return Error;
        }
      }
      r := Serve(Min(length, size - offset), env);
    }

    lemma UnspawnedIsResettable()
      requires Valid() && task == null
      ensures Resettable()
    {
    }

    /** Reads from the object. A result is joined from pieces, laid over exactly the range asked for, of the buffers
        that the stream in flight delivered. It is the object's bytes if none of those buffers is corrupt, and if at
        most one is and the result validates. With a faithful stream there always is a result, and after an error the
        prefetcher starts over at the offset. */
    method Read(offset: nat, length: nat, env: Env) returns (r: ReadResult)
      requires Valid()
      requires offset < size ==> HonestStream(env, offset, id, content)
      modifies Repr()
      ensures Valid() && fresh(Repr() - old(Repr()))
      ensures r.Data? ==> Right(r.bytes, content, offset, length, if offset < size then sources else {})
      ensures r.Data? && offset < size ==> Moved(offset, length, env)
      ensures r.Error? ==> task == null && next == runStart == furthest == offset < size
      ensures offset >= size ==> r.Data? && Untouched()
      ensures offset < size && old(complete) && FaithfulStream(env, offset, id, content) ==> r.Data? && complete
      ensures accountable ==> old(accountable)
      ensures offset < size && OrderlyStream(env, offset, id, content) ==> accountable == old(accountable)
      ensures accountable && config.Roomy() && offset < size ==>
                && leaked == old(leaked) + (if old(Seekable(offset, env)) then 0 else old(Untold()))
                && Untold() == (if length > 0 || r.Error? then 0 else old(UntoldAt(offset, env)))
    {
      hide Checksum, ValidAt, UntoldAt, Reach, Seekable, SeekWindowReservation, BalancedAt, Serves, Right, Delivered;
      if accountable && config.Roomy() {
        SlackIsUntold();
      }
      r := TryRead(offset, length, env);
      if r.Data? {
        ServesIsRight(r.bytes, content, offset, length, if offset < size then sources else {});
      }
      if r.Error? {
        if accountable && config.Roomy() {
          SettledHasNoSlack();
        }
        Reset(offset);
      }
    }

    /** The handle stands where the account says and, if streams deliver in order, holds what the account says. */
    ghost predicate Matches(a: Account)
      reads this, Repr()
    {
      && a.inFlight == (task != null) && a.stand == next && a.runStart == runStart && a.furthest == furthest
      && (accountable && config.Roomy() ==> leaked == a.lost && Untold() == a.pending)
    }

    lemma MatchesMeans(a: Account)
      requires Matches(a)
      ensures accountable && config.Roomy() ==> leaked == a.lost && Untold() == a.pending
    {
    }

    lemma MatchesOpened()
      requires task == null && next == runStart == furthest == 0 && leaked == 0
      ensures Matches(OPENED)
    {
    }

    /** What the state says about which requests can be kept. */
    lemma SeekableCanBe(a: Account, offset: nat, env: Env, to: nat, failed: bool)
      requires Valid() && Matches(a)
      ensures CanBe(a, At(offset, Seekable(offset, env), to, failed), config.maxBackwardSeek)
      ensures CanBe(a, PastEnd, config.maxBackwardSeek)
      ensures Seekable(offset, env) ==> task != null
    {
      hide Checksum, Flat, Stacked, Arrivals, Part.Cells, SeekWindowReservation, Honest, InOrder, SaturatingSub;
    }

    /** A read entered into the account. */
    method Visit(q: Request, ghost a: Account) returns (r: ReadResult, ghost v: Visit)
      requires Valid() && Matches(a)
      requires q.offset < size ==> HonestStream(q.env, q.offset, id, content)
      modifies Repr()
      ensures Valid() && fresh(Repr() - old(Repr()))
      ensures r.Data? ==> Right(r.bytes, content, q.offset, q.length, if q.offset < size then sources else {})
      ensures r.Data? && v.At? ==> sources == if v.kept then old(sources) else Delivered(q.env.deliveries)
      ensures v.PastEnd? ==> sources == old(sources) && task == old(task)
      ensures v.At? == (q.offset < size) && (v.At? && v.kept ==> old(task) != null)
      ensures r.Error? ==> task == null
      ensures q.offset >= size ==> r.Data? && complete == old(complete)
      ensures q.offset < size && old(complete) && FaithfulStream(q.env, q.offset, id, content) ==> r.Data? && complete
      ensures q.offset >= size || OrderlyStream(q.env, q.offset, id, content) ==> accountable == old(accountable)
      ensures Records(v, q, r, size) && CanBe(a, v, config.maxBackwardSeek) && Matches(After(a, v))
      ensures v.At? ==> v.kept == old(Seekable(q.offset, q.env))
    {
      hide Checksum, ValidAt, Untold, UntoldAt, Reach, Seekable, CanBe, BalancedAt, Right, Delivered;
      hide HonestStream, OrderlyStream, FaithfulStream;
      ghost var kept := Seekable(q.offset, q.env);
      ghost var to: nat := if q.offset < size then q.offset + Min(q.length, size - q.offset) else q.offset;
      SeekableCanBe(a, q.offset, q.env, to, true);
      SeekableCanBe(a, q.offset, q.env, to, false);
      UntoldAfter(a, q.offset, q.env);
      r := Read(q.offset, q.length, q.env);
      v := if q.offset >= size then PastEnd else At(q.offset, kept, to, r.Error?);
    }

    lemma UntoldAfter(a: Account, offset: nat, env: Env)
      requires Matches(a)
      ensures accountable && config.Roomy() ==>
                UntoldAt(offset, env) ==
                if Seekable(offset, env) && offset <= a.stand then a.pending + (a.stand - offset) else 0
    {
      hide Seekable;
    }

    /** The end of the handle. Everything is released but what was leaked on the way and what was pushed back and
        never read again. The length of the last run of contiguous reads is a difference that cannot underflow. */
    method Drop() returns (contiguous: nat)
      requires Valid()
      modifies limiter
      ensures contiguous == next - runStart
      ensures accountable ==> limiter.held == leaked + old(Slack())
      ensures accountable && config.Roomy() ==> limiter.held == leaked + old(Untold())
    {
      hide Checksum, WindowValidAt, Honest, InOrder, Arrivals, SeekWindowReservation;
      limiter.Release(SeekWindowReservation(config.partSize, window.maxSize));
      contiguous := next - runStart;
      if task != null {
        task.controller.Drop();
      }
    }
  }

  /** `bytes` are sound and read the object from `offset`, for `length` bytes or as far as the object goes. */
  ghost predicate IsSlice(bytes: CheckedSlice, content: Bytes, offset: nat, length: nat) {
    && bytes.WellFormed() && bytes.Validates()
    && bytes.View() == content[Min(offset, |content|)..Min(offset + length, |content|)]
  }

  /** `bytes` are joined from pieces of the sources, laid over the range asked for, clipped to the object. */
  ghost predicate Serves(bytes: CheckedSlice, content: Bytes, offset: nat, length: nat, sources: set<Source>) {
    Honors(bytes, content, Min(offset, |content|), Min(offset + length, |content|), sources)
  }

  /** Such bytes have the length asked for. They are right if no source is corrupt, and if at most one is and they
      validate. */
  ghost predicate Right(bytes: CheckedSlice, content: Bytes, offset: nat, length: nat, sources: set<Source>) {
    && Serves(bytes, content, offset, length, sources)
    && bytes.WellFormed() && bytes.Len() == Min(offset + length, |content|) - Min(offset, |content|)
    && (AllUncorrupted(sources) ==> IsSlice(bytes, content, offset, length))
    && (AtMostOneCorrupt(sources) && bytes.Validates() ==> IsSlice(bytes, content, offset, length))
  }

  lemma ServesIsRight(bytes: CheckedSlice, content: Bytes, offset: nat, length: nat, sources: set<Source>)
    requires Serves(bytes, content, offset, length, sources)
    ensures Right(bytes, content, offset, length, sources)
  {
    hide Checksum, Honors, AllUncorrupted, AtMostOneCorrupt, CheckedSlice.Validates;
    var from, to := Min(offset, |content|), Min(offset + length, |content|);
    HonorsLength(bytes, content, from, to, sources);
    if AllUncorrupted(sources) {
      HonorsUncorrupted(bytes, content, from, to, sources);
    }
    if AtMostOneCorrupt(sources) && bytes.Validates() {
      HonorsOneCorrupt(bytes, content, from, to, sources);
    }
  }

  /** What pushing a part does to a window that ended at `at`. */
  lemma WindowPushed(seen: seq<Cell>, dropped: nat, part: Part, now: seq<Cell>, maxSize: nat, at: nat,
                     id: ObjectId, content: Bytes, inOrder: bool,
                     sources: set<Source>)
    requires part.Good() && Honest(seen, id, content, sources) && Honest(part.Cells(), id, content, sources)
    requires inOrder ==> |seen| <= at && InOrder(seen, at - |seen|, id, content)
    requires inOrder ==> InOrder(part.Cells(), at, id, content)
    requires part.Len() > maxSize ==> now == []
    requires part.Len() <= maxSize ==> dropped <= |seen| && now == seen[dropped..] + part.Cells()
    requires |seen| + part.Len() <= maxSize ==> dropped == 0
    ensures |now| <= |seen| + part.Len() && (|seen| + part.Len() <= maxSize ==> |now| == |seen| + part.Len())
    ensures Honest(now, id, content, sources)
    ensures inOrder ==> |now| <= at + part.Len() && InOrder(now, at + part.Len() - |now|, id, content)
  {
    hide Checksum, Part.Cells;
    if part.Len() <= maxSize {
      HonestDrop(seen, dropped, id, content, sources);
      HonestSplit(seen[dropped..], part.Cells(), id, content, sources);
      if inOrder {
        InOrderDrop(seen, dropped, at - |seen|, id, content);
        InOrderSplit(seen[dropped..], part.Cells(), at - |seen| + dropped, id, content);
      }
    }
  }

  // ----- Whole sessions -----

  /** A visit that records a read of an object of `size` bytes. */
  ghost predicate Records(v: Visit, q: Request, r: ReadResult, size: nat) {
    if q.offset >= size then v.PastEnd?
    else
      && v.At? && v.offset == q.offset && v.failed == r.Error?
      && (r.Data? ==> v.to == q.offset + Min(q.length, size - q.offset))
  }

  /** What a session leaves behind: the results, for each the request whose stream served it, and the visits. */
  datatype Trace = Trace(results: seq<ReadResult>, servedBy: seq<nat>, visits: seq<Visit>) {
    ghost predicate WellFormed() {
      |results| == |servedBy| == |visits|
    }

    function Then(r: ReadResult, k: nat, v: Visit): Trace {
      Trace(results + [r], servedBy + [k], visits + [v])
    }
  }

  /** The buffers that the stream of a request delivers; a read past the end of the object needs no stream. */
  ghost function SourcesOf(requests: seq<Request>, k: nat, size: nat): set<Source> {
    if k < |requests| && requests[k].offset < size then Delivered(requests[k].env.deliveries) else {}
  }

  /** A result is joined from what the stream of request `k` delivered, and right as far as that is uncorrupted. */
  ghost predicate RightBy(requests: seq<Request>, i: nat, r: ReadResult, k: nat, content: Bytes)
    requires i < |requests|
  {
    r.Data? ==> k <= i && Right(r.bytes, content, requests[i].offset, requests[i].length,
                                 SourcesOf(requests, k, |content|))
  }

  /** Every result so far is right, and every visit records its read. */
  ghost predicate AllRight(requests: seq<Request>, t: Trace, content: Bytes) {
    && t.WellFormed() && |t.results| <= |requests|
    && (forall i | 0 <= i < |t.results| :: RightBy(requests, i, t.results[i], t.servedBy[i], content))
    && (forall i | 0 <= i < |t.results| :: Records(t.visits[i], requests[i], t.results[i], |content|))
  }

  /** Every result so far is there. */
  ghost predicate AllData(t: Trace) {
    forall i | 0 <= i < |t.results| :: t.results[i].Data?
  }

  /** Every result so far is the object's bytes. */
  ghost predicate AllSlices(requests: seq<Request>, t: Trace, content: Bytes) {
    && |t.results| <= |requests|
    && forall i | 0 <= i < |t.results| && t.results[i].Data? ::
         IsSlice(t.results[i].bytes, content, requests[i].offset, requests[i].length)
  }

  /** Every result so far that validates is the object's bytes. */
  ghost predicate AllValidSlices(requests: seq<Request>, t: Trace, content: Bytes) {
    && |t.results| <= |requests|
    && forall i | 0 <= i < |t.results| && t.results[i].Data? && t.results[i].bytes.Validates() ::
         IsSlice(t.results[i].bytes, content, requests[i].offset, requests[i].length)
  }

  lemma RightThen(requests: seq<Request>, t: Trace, r: ReadResult, k: nat, v: Visit, content: Bytes)
    requires AllRight(requests, t, content) && |t.results| < |requests|
    requires RightBy(requests, |t.results|, r, k, content)
    requires Records(v, requests[|t.results|], r, |content|)
    ensures AllRight(requests, t.Then(r, k, v), content)
    ensures AllData(t) && r.Data? ==> AllData(t.Then(r, k, v))
  {
    hide RightBy, Records;
  }

  lemma RightNothing(requests: seq<Request>, content: Bytes)
    ensures var t := Trace([], [], []); AllRight(requests, t, content) && AllData(t)
  {
  }

  /** If no stream delivers a corrupt buffer, every result is the object's bytes; if none delivers more than one,
      every result that validates is. */
  lemma CorruptionShows(requests: seq<Request>, t: Trace, content: Bytes)
    requires AllRight(requests, t, content)
    ensures AllUncorruptedStreams(requests, content) ==> AllSlices(requests, t, content)
    ensures AllOneCorruptStreams(requests, content) ==> AllValidSlices(requests, t, content)
  {
    hide Serves, IsSlice, Records, AllUncorrupted, AtMostOneCorrupt, Delivered, CheckedSlice.Validates;
    NothingCorrupt();
    forall i | 0 <= i < |t.results| && t.results[i].Data?
      ensures var bytes, q := t.results[i].bytes, requests[i];
              && (AllUncorruptedStreams(requests, content) ==> IsSlice(bytes, content, q.offset, q.length))
              && (AllOneCorruptStreams(requests, content) && bytes.Validates() ==>
                    IsSlice(bytes, content, q.offset, q.length))
    {
      assert RightBy(requests, i, t.results[i], t.servedBy[i], content);
    }
  }

  lemma NothingCorrupt()
    ensures AllUncorrupted({}) && AtMostOneCorrupt({})
  {
  }

  /** Reads that all ask for something lose nothing. */
  lemma PositiveLengthsLoseNothing(requests: seq<Request>, t: Trace, content: Bytes)
    requires AllRight(requests, t, content) && forall i | 0 <= i < |requests| :: requests[i].length > 0
    ensures Ledger(t.visits, |t.visits|).lost + Ledger(t.visits, |t.visits|).pending == 0
  {
    hide RightBy, Ledger;
    forall i | 0 <= i < |t.visits| && t.visits[i].At?
      ensures t.visits[i].failed || t.visits[i].offset < t.visits[i].to
    {
      assert Records(t.visits[i], requests[i], t.results[i], |content|);
    }
    NonEmptyReadsLoseNothing(t.visits);
  }

  // What the streams of a session may be like; a read past the end needs none.

  ghost predicate AllHonest(requests: seq<Request>, id: ObjectId, content: Bytes) {
    forall i | 0 <= i < |requests| && requests[i].offset < |content| ::
      HonestStream(requests[i].env, requests[i].offset, id, content)
  }

  ghost predicate AllUncorruptedStreams(requests: seq<Request>, content: Bytes) {
    forall i | 0 <= i < |requests| && requests[i].offset < |content| ::
      AllUncorrupted(Delivered(requests[i].env.deliveries))
  }

  ghost predicate AllOneCorruptStreams(requests: seq<Request>, content: Bytes) {
    forall i | 0 <= i < |requests| && requests[i].offset < |content| ::
      AtMostOneCorrupt(Delivered(requests[i].env.deliveries))
  }

  ghost predicate AllOrderly(requests: seq<Request>, id: ObjectId, content: Bytes) {
    forall i | 0 <= i < |requests| && requests[i].offset < |content| ::
      OrderlyStream(requests[i].env, requests[i].offset, id, content)
  }

  ghost predicate AllFaithful(requests: seq<Request>, id: ObjectId, content: Bytes) {
    forall i | 0 <= i < |requests| && requests[i].offset < |content| ::
      FaithfulStream(requests[i].env, requests[i].offset, id, content)
  }

  lemma StreamAt(requests: seq<Request>, n: nat, id: ObjectId, content: Bytes)
    requires AllHonest(requests, id, content) && n < |requests|
    ensures var q := requests[n];
            q.offset < |content| ==>
              && HonestStream(q.env, q.offset, id, content)
              && (AllOrderly(requests, id, content) ==> OrderlyStream(q.env, q.offset, id, content))
              && (AllFaithful(requests, id, content) ==> FaithfulStream(q.env, q.offset, id, content))
  {
    hide HonestStream, SoundStream, OrderlyStream, FaithfulStream;
  }

  /** Everything a handle's owner can do with it: open it, read any number of times anywhere, close it. Every result
      is joined from what one of the streams delivered. It is the object's bytes if no stream delivers a corrupt
      buffer, and if it validates and no stream delivers more than one. There is a result for every read if the
      streams are faithful. If every stream delivers in order, however far, what is still reserved at the end is what
      the account of the visits says, which is nothing exactly when no bytes pushed back were abandoned, and so if
      every read asks for something. */
  method Session(id: ObjectId, config: Config, content: Bytes, requests: seq<Request>)
    returns (results: seq<ReadResult>, ghost trace: Trace, held: int)
    requires config.partSize > 0 && config.maxBackwardSeek > 0
    requires AllHonest(requests, id, content)
    ensures trace.results == results && |results| == |requests| && AllRight(requests, trace, content)
    ensures AllUncorruptedStreams(requests, content) ==> AllSlices(requests, trace, content)
    ensures AllOneCorruptStreams(requests, content) ==> AllValidSlices(requests, trace, content)
    ensures AllFaithful(requests, id, content) ==> AllData(trace)
    ensures Plausible(trace.visits, config.maxBackwardSeek)
    ensures config.Roomy() && AllOrderly(requests, id, content) ==>
              && var a := Ledger(trace.visits, |trace.visits|);
              && held == a.lost + a.pending
              && (held == 0 <==> !exists i :: Abandoned(trace.visits, i))
              && ((forall i | 0 <= i < |requests| :: requests[i].length > 0) ==> held == 0)
  {
    hide PrefetchGetObject.ValidAt, PrefetchGetObject.Untold, HonestStream, OrderlyStream, FaithfulStream, Right;
    hide PrefetchGetObject.Matches, Ledger, After, CanBe, Plausible, Abandoned, Records, IsSlice, Checksum, Delivered;
    hide AllRight, AllData, AllSlices, AllValidSlices, AllHonest, AllOrderly, AllFaithful;
    hide AllUncorruptedStreams, AllOneCorruptStreams;
    var limiter := new Reservations();
    var handle := new PrefetchGetObject(id, |content|, config, limiter, content);
    ghost var stream: nat := 0;
    results, trace := [], Trace([], [], []);
    NoVisits(config.maxBackwardSeek);
    RightNothing(requests, content);
    handle.MatchesOpened();
    while |results| < |requests|
      invariant trace.WellFormed() && trace.results == results && |results| <= |requests|
      invariant AllRight(requests, trace, content)
      invariant handle.Valid() && fresh(handle.Repr()) && handle.limiter == limiter
      invariant handle.id == id && handle.size == |content| && handle.content == content && handle.config == config
      invariant handle.task != null ==>
                  stream < |results| && handle.sources == SourcesOf(requests, stream, |content|)
      invariant AllFaithful(requests, id, content) ==> handle.complete && AllData(trace)
      invariant Plausible(trace.visits, config.maxBackwardSeek)
      invariant handle.Matches(Ledger(trace.visits, |trace.visits|))
      invariant AllOrderly(requests, id, content) ==> handle.accountable
    {
      var request := requests[|results|];
      StreamAt(requests, |results|, id, content);
      var r;
      ghost var visit;
      r, visit := handle.Visit(request, Ledger(trace.visits, |trace.visits|));
      PlausibleAppend(trace.visits, visit, config.maxBackwardSeek);
      ghost var k := if visit.At? && visit.kept then stream else |results|;
      RightThen(requests, trace, r, k, visit, content);
      stream := if visit.At? then k else stream;
      results, trace := results + [r], trace.Then(r, k, visit);
    }
    handle.MatchesMeans(Ledger(trace.visits, |trace.visits|));
    var contiguous := handle.Drop();
    held := limiter.held;
    CorruptionShows(requests, trace, content);
    AccountIff(trace.visits);
    if forall i | 0 <= i < |requests| :: requests[i].length > 0 {
      PositiveLengthsLoseNothing(requests, trace, content);
    }
  }

  /** Reads of zero bytes can lose track of memory: bytes pushed back by a backward seek stay reserved after the
      handle is closed if all that comes after is a read of nothing at the same place, or a read past the end. */
  method EmptyReadLeaks(id: ObjectId, config: Config, content: Bytes, n: nat, back: nat, last: Request,
                        env: Env, env': Env)
    returns (held: int)
    requires config.partSize > 0 && config.maxBackwardSeek > 0 && config.Roomy()
    requires back < n <= |content| && n <= config.maxBackwardSeek
    requires last.offset == back || last.offset >= |content|
    requires FaithfulStream(env, 0, id, content) && FaithfulStream(env', back, id, content)
    requires last.offset == back ==> FaithfulStream(last.env, back, id, content)
    ensures held == if last.offset == back && last.length > 0 then 0 else n - back
  {
    hide PrefetchGetObject.ValidAt, Arrivals, InOrder, Honest, Checksum, Right, Delivered, SeekWindowReservation;
    var limiter := new Reservations();
    var handle := new PrefetchGetObject(id, |content|, config, limiter, content);
    var first := handle.Read(0, n, env);
    handle.ReachesBack();
    var second := handle.Read(back, 0, env');
    var third := handle.Read(last.offset, last.length, last.env);
    var contiguous := handle.Drop();
    held := limiter.held;
  }
}
