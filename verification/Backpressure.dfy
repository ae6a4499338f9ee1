/** The flow-control window of one request, and the memory reserved for it. */
module Backpressure {
  import opened Arithmetic

  /** One file handle's account with the shared memory limiter: what it has reserved and not released.
      Whether a conditional reservation is granted depends on the other users of the limiter. */
  class Reservations {
    var held: int

    constructor ()
      ensures held == 0
    {
      held := 0;
    }

    method Reserve(size: nat)
      modifies this
      ensures held == old(held) + size
    {
      held := held + size;
    }

    method TryReserve(size: nat) returns (granted: bool)
      modifies this
      ensures held == old(held) + if granted then size else 0
    {
      granted := *;
      if granted {
        held := held + size;
      }
    }

    method Release(size: nat)
      modifies this
      ensures held == old(held) - size
    {
      held := held - size;
    }
  }

  /** Where a window may end: anywhere, or on part boundaries counted from `from`. */
  datatype Alignment = Unaligned | AlignToPartSize(from: nat, partSize: nat) {
    predicate WellFormed() {
      AlignToPartSize? ==> partSize > 0
    }

    function Granule(): nat {
      if Unaligned? then 1 else partSize
    }
  }

  function NextMultipleOf(n: nat, size: nat): (r: nat)
    requires size > 0
    ensures n <= r < n + size && r % size == 0
  {
    if n % size == 0 then n
    else
      var r := n + (size - n % size);
      assert r == (n / size + 1) * size;
      ModUnique(r, n / size + 1, 0, size);
      r
  }

  /** The window end moved up to a part boundary, unless it lies before the first one or alignment is off. */
  function Align(a: Alignment, end: nat): (r: nat)
    requires a.WellFormed()
    ensures end <= r < end + a.Granule() && Aligned(a, r)
  {
    if a.AlignToPartSize? && end > a.from then a.from + NextMultipleOf(end - a.from, a.partSize) else end
  }

  ghost predicate Aligned(a: Alignment, end: nat)
    requires a.WellFormed()
  {
    a.AlignToPartSize? && end > a.from ==> (end - a.from) % a.partSize == 0
  }

  /** Window sizes. The multiplier is at least two. */
  datatype WindowSizes = WindowSizes(initial: nat, min: nat, max: nat, multiplier: nat)

  class BackpressureController {
    const min: nat
    const max: nat
    const multiplier: nat
    const requestEnd: nat
    const alignment: Alignment
    const limiter: Reservations
    var preferred: nat
    var windowEnd: nat
    var nextRead: nat

    /** `Roomy` sizes let the window always move past the read offset; reading may otherwise get ahead of
        the window. */
    ghost predicate Roomy()
      reads this
    {
      preferred >= 2 && min >= 2 && max >= 2
    }

    ghost predicate Valid()
      reads this
    {
      multiplier >= 2 && alignment.WellFormed()
    }

    constructor (sizes: WindowSizes, alignment: Alignment, start: nat, end: nat, limiter: Reservations)
      requires alignment.WellFormed()
      modifies limiter
      ensures Valid() && this.limiter == limiter && requestEnd == end && this.alignment == alignment
      ensures min == sizes.min && max == sizes.max && preferred == sizes.initial
      ensures multiplier == if sizes.multiplier < 2 then 2 else sizes.multiplier
      ensures nextRead == start && windowEnd == start + sizes.initial
      ensures sizes.initial >= 2 && sizes.min >= 2 && sizes.max >= 2 ==> Roomy()
      ensures limiter.held == old(limiter.held) + sizes.initial
    {
      min, max, multiplier := sizes.min, sizes.max, Max(sizes.multiplier, 2);
      requestEnd, this.alignment, this.limiter := end, alignment, limiter;
      preferred, nextRead, windowEnd := sizes.initial, start, start + sizes.initial;
      new;
      limiter.Reserve(sizes.initial);
    }

    /** Feedback that `length` bytes at `offset` were read. The memory of what was read is released, the memory
        of every byte by which the window grows is reserved, and the window keeps ahead of the reader. */
    method DataRead(offset: nat, length: nat)
      requires Valid()
      modifies this, limiter
      ensures Valid() && (old(Roomy()) ==> Roomy())
      ensures nextRead == offset + length
      ensures old(windowEnd) <= windowEnd
      ensures limiter.held == old(limiter.held) - length + (windowEnd - old(windowEnd))
      ensures windowEnd >= requestEnd || SaturatingSub(windowEnd, nextRead) >= preferred / 2
      ensures old(Roomy()) && nextRead <= requestEnd ==> nextRead <= windowEnd
      ensures windowEnd <= Max(old(windowEnd), requestEnd)
      ensures windowEnd == old(windowEnd) || windowEnd == requestEnd || Aligned(alignment, windowEnd)
      ensures windowEnd == old(windowEnd) || windowEnd < nextRead + old(preferred) + alignment.Granule()
      ensures SaturatingSub(old(windowEnd), nextRead) >= old(preferred) / 2 ==> windowEnd == old(windowEnd)
      ensures preferred == old(preferred) || Min(min, max) <= preferred < old(preferred)
    {
      nextRead := offset + length;
      limiter.Release(length);
      var remaining := SaturatingSub(windowEnd, nextRead);
      while remaining < preferred / 2 && windowEnd < requestEnd
        invariant Valid() && (old(Roomy()) ==> Roomy())
        invariant nextRead == offset + length && windowEnd == old(windowEnd)
        invariant limiter.held == old(limiter.held) - length
        invariant preferred == old(preferred) || Min(min, max) <= preferred < old(preferred)
        decreases preferred
      {
        var newEnd := Min(Align(alignment, nextRead + preferred), requestEnd);
        if newEnd <= windowEnd {
          break;
        }
        var increase := newEnd - windowEnd;
        if preferred <= min {
          limiter.Reserve(increase);
          windowEnd := windowEnd + increase;
          break;
        }
        var granted := limiter.TryReserve(increase);
        if granted {
          windowEnd := windowEnd + increase;
          break;
        }
        ScaleDown();
      }
    }

    /** Prefers a smaller window, unless already at the minimum. */
    method ScaleDown()
      requires Valid()
      modifies this`preferred
      ensures old(preferred) <= min ==> preferred == old(preferred)
      ensures old(preferred) > min ==> Min(min, max) <= preferred < old(preferred) && preferred <= max
      ensures old(preferred) > min ==> preferred == Min(Max(old(preferred) / multiplier, min), max)
    {
      if preferred > min {
        DivShrinks(preferred, multiplier);
        preferred := Min(Max(preferred / multiplier, min), max);
      }
    }

    /** Feedback that the reader has emptied the queue: prefer a larger window, as far as memory allows. */
    method PartQueueStall(available: nat)
      requires Valid()
      modifies this`preferred
      ensures old(preferred) <= preferred
      ensures preferred != old(preferred) ==> preferred <= max && preferred - old(preferred) <= available
      ensures 0 < old(preferred) < max && available >= max ==> old(preferred) < preferred && Min(min, max) <= preferred
      ensures preferred == old(preferred) || preferred == Min(Max(old(preferred) * multiplier, min), max)
      ensures preferred != old(preferred) <==>
                && old(preferred) < max && Min(Max(old(preferred) * multiplier, min), max) != old(preferred)
                && available >= Min(Max(old(preferred) * multiplier, min), max) - old(preferred)
    {
      if preferred < max {
        MulAtLeast(multiplier, preferred);
        assert preferred > 0 ==> preferred < preferred * multiplier;
        var larger := Min(Max(preferred * multiplier, min), max);
        if available >= larger - preferred {
          preferred := larger;
        }
      }
    }

    /** The end of the request: what is still reserved for the unread part of the window is released. */
    method Drop()
      modifies limiter
      ensures limiter.held == old(limiter.held) - SaturatingSub(windowEnd, nextRead)
    {
      limiter.Release(SaturatingSub(windowEnd, nextRead));
    }
  }
}
