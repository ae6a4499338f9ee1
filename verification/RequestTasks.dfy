/** A GetObject request in flight: the queue of parts it delivers and its flow-control window. */
module RequestTasks {
  import opened Arithmetic
  import opened Backpressure
  import opened Crc32c
  import opened Parts
  import opened Pieces
  import opened Sequences
  import opened Wrappers

  /** What the stream puts on the queue: a part, or the error that ends it. A stream that stops short ends
      the same way, when the reader waits for a part that never comes. */
  datatype Delivery = Received(part: Part) | Failed

  ghost predicate GoodDeliveries(ds: seq<Delivery>) {
    forall i | 0 <= i < |ds| :: ds[i].Received? ==> ds[i].part.Good()
  }

  /** The cells that arrive before the stream fails or stops. */
  ghost function Arrivals(ds: seq<Delivery>): seq<Cell>
    requires GoodDeliveries(ds)
  {
    if ds == [] || ds[0].Failed? then [] else ds[0].part.Cells() + Arrivals(ds[1..])
  }

  /** The buffers that arrive before the stream fails or stops. */
  function Delivered(ds: seq<Delivery>): set<Source> {
    if ds == [] || ds[0].Failed? then {} else {SourceOf(ds[0].part.data, ds[0].part.offset)} + Delivered(ds[1..])
  }

  /** A part that is received, as are all before it, and its buffer. */
  ghost predicate ReceivedAt(ds: seq<Delivery>, i: nat, s: Source) {
    && i < |ds| && (forall j | 0 <= j <= i :: ds[j].Received?)
    && s == SourceOf(ds[i].part.data, ds[i].part.offset)
  }

  /** Exactly the buffers of the parts before any failure are delivered. */
  lemma {:induction false} DeliveredIff(ds: seq<Delivery>, s: Source)
    ensures s in Delivered(ds) <==> exists i :: ReceivedAt(ds, i, s)
    decreases |ds|
  {
    hide SourceOf;
    if ds != [] && ds[0].Received? {
      DeliveredIff(ds[1..], s);
      if s in Delivered(ds[1..]) {
        var i: nat :| ReceivedAt(ds[1..], i, s);
        assert ReceivedAt(ds, i + 1, s);
      }
      if s == SourceOf(ds[0].part.data, ds[0].part.offset) {
        assert ReceivedAt(ds, 0, s);
      }
      if i: nat :| ReceivedAt(ds, i, s) && i != 0 {
        assert ReceivedAt(ds[1..], i - 1, s);
      }
    }
  }

  /** Every cell that arrives was cut from a buffer that arrives. */
  lemma {:induction false} ArrivalsAreDelivered(ds: seq<Delivery>)
    requires GoodDeliveries(ds)
    ensures forall i | 0 <= i < |Arrivals(ds)| :: Arrivals(ds)[i].source in Delivered(ds)
    decreases |ds|
  {
    hide Checksum;
    if ds != [] && ds[0].Received? {
      ArrivalsAreDelivered(ds[1..]);
    }
  }

  lemma ArrivalsFirst(ds: seq<Delivery>)
    requires GoodDeliveries(ds)
    ensures Arrivals(ds) != [] <==> ds != [] && ds[0].Received?
    ensures ds != [] && ds[0].Received? ==>
              GoodDeliveries(ds[1..]) && Arrivals(ds) == ds[0].part.Cells() + Arrivals(ds[1..])
  {
  }

  /** The cells of a stack of parts, top first. */
  ghost function Stacked(parts: seq<Part>): seq<Cell>
    requires AllGood(parts)
  {
    if parts == [] then [] else parts[|parts| - 1].Cells() + Stacked(parts[..|parts| - 1])
  }

  lemma StackedPush(parts: seq<Part>, p: Part)
    requires AllGood(parts) && p.Good()
    ensures AllGood(parts + [p]) && Stacked(parts + [p]) == p.Cells() + Stacked(parts)
  {
    assert (parts + [p])[..|parts|] == parts;
  }

  lemma StackedTop(parts: seq<Part>)
    requires AllGood(parts)
    ensures Stacked(parts) != [] <==> parts != []
    ensures parts != [] ==>
              && AllGood(parts[..|parts| - 1])
              && Stacked(parts) == parts[|parts| - 1].Cells() + Stacked(parts[..|parts| - 1])
  {
  }

  /** A queue of parts of which the first can be read piecemeal, and onto whose front parts can be pushed. */
  class PartQueue {
    var front: seq<Part>
    var receiver: seq<Delivery>
    var failed: bool
    const limiter: Reservations

    ghost predicate Valid()
      reads this
    {
      AllGood(front) && GoodDeliveries(receiver)
    }

    /** Everything that can still be read, in order. */
    ghost function Ahead(): seq<Cell>
      requires Valid()
      reads this
    {
      Stacked(front) + Arrivals(receiver)
    }

    constructor (deliveries: seq<Delivery>, limiter: Reservations)
      requires GoodDeliveries(deliveries)
      ensures Valid() && !failed && Ahead() == Arrivals(deliveries) && this.limiter == limiter
      ensures front == []
    {
      front, receiver, failed, this.limiter := [], deliveries, false, limiter;
      new;
      Nil(Arrivals(deliveries));
    }

    /** Reads a piece off the front: `length` bytes, or fewer if a part ends before; fails only if nothing is
        ahead. */
    method Read(length: nat) returns (r: Option<Part>)
      requires Valid() && !failed
      modifies this
      ensures Valid()
      ensures r.None? <==> old(Ahead()) == []
      ensures failed == r.None? && (r.None? ==> Ahead() == [])
      ensures r.Some? ==> r.value.data.WellFormed() && r.value.Len() <= length
      ensures r.Some? ==> r.value.Cells() + Ahead() == old(Ahead())
      ensures r.Some? && length > 0 ==> r.value.Good()
      ensures r.Some? && r.value.Len() < length ==> |front| + |receiver| < |old(front)| + |old(receiver)|
    {
      hide Checksum, Stacked, Arrivals, Part.Cells;
      ghost var was := Ahead();
      StackedTop(front);
      ArrivalsFirst(receiver);
      var part: Part;
      if front != [] {
        part := front[|front| - 1];
        front := front[..|front| - 1];
        Regroup(part.Cells(), Stacked(front), Arrivals(receiver));
      } else if receiver == [] || receiver[0].Failed? {
        failed := true;
        return None;
      } else {
        part := receiver[0].part;
        receiver := receiver[1..];
        Nil(part.Cells());
        Nil(Arrivals(receiver));
      }
      assert part.Cells() + Ahead() == was;
      if length < part.Len() {
        var (head, tail) := SplitOff(part, length);
        StackedPush(front, tail);
        Regroup(tail.Cells(), Stacked(front), Arrivals(receiver));
        Regroup(head.Cells(), tail.Cells(), Ahead());
        front := front + [tail];
        part := head;
      }
      r := Some(part);
    }

    /** Puts a part back in front, reserving memory for it again. */
    method PushFront(part: Part)
      requires Valid() && !failed && part.Good()
      modifies this, limiter
      ensures Valid() && !failed
      ensures Ahead() == part.Cells() + old(Ahead())
      ensures limiter.held == old(limiter.held) + part.Len()
    {
      hide Checksum, Stacked, Arrivals, Part.Cells;
      limiter.Reserve(part.Len());
      StackedPush(front, part);
      Regroup(part.Cells(), Stacked(front), Arrivals(receiver));
      front := front + [part];
    }
  }

  /** Growing from a size that has not shrunk below the minimum. */
  lemma GrowsBy(size: nat, was: nat, min: nat, max: nat, multiplier: nat)
    requires size == was || Min(min, max) <= size
    ensures size < max ==> Min(Max(size * multiplier, min), max) >= Min(max, Min(was, min) * multiplier)
  {
    if size < max {
      MulMonotone(Min(was, min), size, multiplier);
    }
  }

  class RequestTask {
    const queue: PartQueue
    const controller: BackpressureController
    const start: nat
    var remaining: nat

    ghost predicate Valid()
      reads this, queue, controller
    {
      && queue.Valid() && controller.Valid() && queue.limiter == controller.limiter
      && |queue.Ahead()| <= remaining
    }

    constructor (deliveries: seq<Delivery>, start: nat, end: nat, sizes: WindowSizes, alignment: Alignment,
                 limiter: Reservations)
      requires GoodDeliveries(deliveries) && alignment.WellFormed()
      requires start <= end && |Arrivals(deliveries)| <= end - start
      modifies limiter
      ensures Valid() && fresh(queue) && fresh(controller) && controller.limiter == limiter
      ensures !queue.failed && queue.Ahead() == Arrivals(deliveries)
      ensures this.start == start && remaining == end - start && controller.requestEnd == end
      ensures controller.nextRead == start && controller.windowEnd == start + sizes.initial
      ensures controller.min == sizes.min && controller.max == sizes.max && controller.preferred == sizes.initial
      ensures controller.multiplier == (if sizes.multiplier < 2 then 2 else sizes.multiplier)
      ensures controller.alignment == alignment
      ensures sizes.initial >= 2 && sizes.min >= 2 && sizes.max >= 2 ==> controller.Roomy()
      ensures limiter.held == old(limiter.held) + sizes.initial
    {
      var q := new PartQueue(deliveries, limiter);
      var c := new BackpressureController(sizes, alignment, start, end, limiter);
      queue, controller, this.start, remaining := q, c, start, end - start;
    }

    /** Reads a piece of at most `length` bytes, empty only if nothing is asked for, and tells the controller;
        fails only if nothing is ahead, and then changes nothing but the queue's failure mark. */
    method Read(length: nat, received: nat, available: nat) returns (r: Option<Part>)
      requires Valid() && !queue.failed
      modifies this, queue, controller, controller.limiter
      ensures Valid()
      ensures r.None? <==> old(queue.Ahead()) == []
      ensures queue.failed == r.None?
      ensures r.None? ==> remaining == old(remaining) && controller.limiter.held == old(controller.limiter.held)
                          && controller.nextRead == old(controller.nextRead)
                          && controller.windowEnd == old(controller.windowEnd)
                          && (old(controller.Roomy()) ==> controller.Roomy())
      ensures r.Some? ==> r.value.data.WellFormed() && r.value.Len() <= length && (length > 0 ==> r.value.Good())
      ensures r.Some? ==> r.value.Cells() + queue.Ahead() == old(queue.Ahead())
      ensures r.Some? ==> remaining == old(remaining) - r.value.Len()
      ensures r.Some? ==> controller.nextRead == r.value.offset + r.value.Len()
      ensures r.Some? ==> controller.limiter.held == old(controller.limiter.held) - r.value.Len()
                                                     + (controller.windowEnd - old(controller.windowEnd))
      ensures r.Some? ==> old(controller.windowEnd) <= controller.windowEnd
      ensures r.Some? && start + received > controller.nextRead ==> controller.preferred <= old(controller.preferred)
      ensures r.Some? && start + received <= controller.nextRead && available >= controller.max ==>
                controller.preferred >=
                Min(controller.max, Min(old(controller.preferred), controller.min) * controller.multiplier)
      ensures r.Some? && old(controller.Roomy()) ==>
                && controller.Roomy()
                && (controller.nextRead <= controller.requestEnd ==> controller.nextRead <= controller.windowEnd)
    {
      hide Checksum, Part.Cells, Stacked, Arrivals;
      r := queue.Read(length);
      if r.None? {
        return;
      }
      var part := r.value;
      remaining := remaining - part.Len();
      controller.DataRead(part.offset, part.Len());
      ghost var shrunk := controller.preferred;
      if SaturatingSub(start + received, part.offset + part.Len()) == 0 {
        controller.PartQueueStall(available);
        GrowsBy(shrunk, old(controller.preferred), controller.min, controller.max, controller.multiplier);
      }
    }

    /** Puts parts back in front, in their order. */
    method PushFront(parts: seq<Part>)
      requires Valid() && !queue.failed && AllGood(parts)
      modifies this, queue, controller.limiter
      ensures Valid() && !queue.failed
      ensures queue.Ahead() == Flat(parts) + old(queue.Ahead())
      ensures remaining == old(remaining) + |Flat(parts)|
      ensures controller.limiter.held == old(controller.limiter.held) + |Flat(parts)|
    {
      hide Checksum, Flat, Part.Cells, Stacked, Arrivals;
      var n := |parts|;
      ghost var was := queue.Ahead();
      FlatNothing();
      assert parts[|parts|..] == [];
      Nil(was);
      while n != 0
        invariant 0 <= n <= |parts|
        invariant Valid() && !queue.failed && AllGood(parts[n..])
        invariant queue.Ahead() == Flat(parts[n..]) + was
        invariant remaining == old(remaining) + |Flat(parts[n..])|
        invariant controller.limiter.held == old(controller.limiter.held) + |Flat(parts[n..])|
      {
        n := n - 1;
        var part := parts[n];
        assert parts[n..] == [part] + parts[n + 1..];
        FlatCons(part, parts[n + 1..]);
        Regroup(part.Cells(), Flat(parts[n + 1..]), was);
        remaining := remaining + part.Len();
        queue.PushFront(part);
      }
      assert parts[0..] == parts;
    }
  }
}
