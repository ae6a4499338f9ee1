/** The bytes most recently read from a stream, kept for seeking backwards. */
module SeekWindows {
  import opened Crc32c
  import opened Parts
  import opened Sequences
  import opened Wrappers

  ghost predicate LacksRoom(parts: seq<Part>, part: Part, maxSize: nat)
    requires part.Good()
  {
    AllGood(parts) && |Flat(parts)| + part.Len() > maxSize
  }

  ghost predicate DropsFrom(was: seq<Part>, now: seq<Part>, part: Part, maxSize: nat, from: nat)
    requires part.Good()
  {
    from <= |was| && now == was[from..] + [part] && (from == 0 || LacksRoom(was[from - 1..], part, maxSize))
  }

  /** The parts kept are the last of those before, and keeping one more would have left no room. */
  ghost predicate DropsOnlyForRoom(was: seq<Part>, now: seq<Part>, part: Part, maxSize: nat)
    requires part.Good()
  {
    exists from :: DropsFrom(was, now, part, maxSize, from)
  }

  /** A backwards seek window: the last parts read, up to a maximum number of bytes. */
  class SeekWindow {
    var parts: seq<Part>
    const maxSize: nat
    var currentSize: nat

    ghost predicate Valid()
      reads this
    {
      AllGood(parts) && currentSize == |Flat(parts)| && currentSize <= maxSize && 0 < maxSize
    }

    ghost function Contents(): seq<Cell>
      requires Valid()
      reads this
    {
      Flat(parts)
    }

    constructor (maxSize: nat)
      requires maxSize > 0
      ensures Valid() && Contents() == [] && this.maxSize == maxSize
    {
      parts, this.maxSize, currentSize := [], maxSize, 0;
    }

    method Clear()
      requires Valid()
      modifies this
      ensures Valid() && Contents() == []
    {
      parts, currentSize := [], 0;
    }

    /** Adds a part at the end, dropping the oldest parts: a part larger than the window empties it, and otherwise
        no more parts are dropped than it takes to make room. */
    method Push(part: Part) returns (ghost dropped: nat)
      requires Valid() && part.Good()
      modifies this
      ensures Valid()
      ensures part.Len() > maxSize ==> Contents() == []
      ensures part.Len() <= maxSize ==>
                dropped <= |old(Contents())| && Contents() == old(Contents())[dropped..] + part.Cells()
      ensures part.Len() <= maxSize ==> DropsOnlyForRoom(old(parts), parts, part, maxSize)
      ensures |old(Contents())| + part.Len() <= maxSize ==> dropped == 0
    {
      hide Flat, Checksum;
      dropped := 0;
      if part.Len() > maxSize {
        parts, currentSize := [], 0;
        FlatNothing();
        return;
      }
      ghost var was, from := Contents(), 0;
      while maxSize - currentSize < part.Len()
        invariant Valid()
        invariant dropped <= |was| && Contents() == was[dropped..]
        invariant |was| + part.Len() <= maxSize ==> dropped == 0
        invariant from <= |old(parts)| && parts == old(parts)[from..]
        invariant from == 0 || LacksRoom(old(parts)[from - 1..], part, maxSize)
        decreases currentSize
      {
        FlatNonEmpty(parts);
        FlatUncons(parts);
        ghost var first := parts[0].Cells();
        assert LacksRoom(old(parts)[from..], part, maxSize);
        from := from + 1;
        currentSize := currentSize - parts[0].Len();
        parts := parts[1..];
        assert was[dropped..][|first|..] == Contents();
        SliceOfSlice(was, dropped, |was|, |first|, |was| - dropped);
        dropped := dropped + |first|;
      }
      FlatSnoc(parts, part);
      currentSize := currentSize + part.Len();
      parts := parts + [part];
      assert DropsFrom(old(parts), parts, part, maxSize, from);
    }

    /** Takes exactly the last `length` bytes off the window, or nothing if it holds fewer. */
    method ReadBack(length: nat) returns (r: Option<seq<Part>>)
      requires Valid()
      modifies this
      ensures Valid()
      ensures r.None? <==> length > |old(Contents())|
      ensures r.None? ==> Contents() == old(Contents())
      ensures r.Some? ==> AllGood(r.value) && |Flat(r.value)| == length && Contents() + Flat(r.value) == old(Contents())
    {
      hide Flat, Checksum;
      if length > currentSize {
        return None;
      }
      var result: seq<Part> := [];
      var left := length;
      FlatNothing();
      Nil(Contents());
      ghost var was := Contents();
      while left != 0
        invariant Valid() && AllGood(result)
        invariant 0 <= left <= currentSize && left + |Flat(result)| == length
        invariant Contents() + Flat(result) == was
        decreases left
      {
        FlatNonEmpty(parts);
        FlatUnsnoc(parts);
        var part := parts[|parts| - 1];
        ghost var init, taken := Flat(parts[..|parts| - 1]), part.Cells();
        parts := parts[..|parts| - 1];
        if part.Len() > left {
          var (front, back) := SplitOff(part, part.Len() - left);
          FlatSnoc(parts, front);
          parts := parts + [front];
          Regroup(init, front.Cells(), back.Cells());
          part := back;
        }
        left := left - part.Len();
        currentSize := currentSize - part.Len();
        FlatCons(part, result);
        Regroup(Flat(parts), part.Cells(), Flat(result));
        result := [part] + result;
      }
      r := Some(result);
    }
  }
}
