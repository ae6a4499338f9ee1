/** Checksummed buffers under memory corruption, over whole runs.

    Buffers are shared: a block of memory is referred to by any number of values, each seeing a window of
    it (its buffer) and a range inside that window (its view), with a checksum of the window. Corruption
    may strike any block between any two internal steps of `shrink_to_fit` and `extend`. Beside the
    memory, the state records what no program can see: the bytes each block was meant to hold, and the
    bytes each value would hold had nothing ever been corrupted.
  */
module Integrity {
  import opened ByteStrings
  import opened Crc32c
  import opened Sequences

  type Handle = nat

  /** A block of memory: the bytes it was meant to hold and the bytes it holds now. */
  datatype Block = Block(original: Bytes, current: Bytes)

  /** How far an operation on a value has come. */
  datatype Phase =
    | Idle
    | SliceSummed(sum: Crc)                         // shrink_to_fit: exact checksum taken, not yet validated
    | FirstCopied(second: Handle, bytes: Bytes)     // extend: own buffer copied, the other's not yet

  /** A checksummed value: a window `lo..hi` of a block, the view `start..end` in it and the window's
      checksum. `ideal` is what the view would read had there been no corruption. */
  datatype Value = Value(block: nat, lo: nat, hi: nat, start: nat, end: nat, checksum: Crc,
                         phase: Phase, ideal: Bytes) {
    predicate Fits() {
      lo == start && end == hi
    }

    predicate Empty() {
      start == end
    }
  }

  datatype State = State(blocks: seq<Block>, values: map<Handle, Value>)

  datatype Event =
    | New(h: Handle, bytes: Bytes)
    | Slice(h: Handle, into: Handle, from: nat, to: nat)
    | SplitOff(h: Handle, into: Handle, at: nat)
    | SumSlice(h: Handle)
    | FinishShrink(h: Handle)
    | ExtendByEmpty(h: Handle, other: Handle)
    | ReplaceEmpty(h: Handle, other: Handle)
    | CopyFirst(h: Handle, other: Handle)
    | CopySecond(h: Handle)
    | Drop(h: Handle)
    | Corrupt(block: nat, bytes: Bytes)

  const INITIAL := State([], map[])

  // ----- What can be seen of a value -----

  ghost predicate WellFormed(s: State) {
    && (forall b <- s.blocks :: |b.current| == |b.original|)
    && (forall h <- s.values :: WellPlaced(s, s.values[h]))
  }

  ghost predicate WellPlaced(s: State, v: Value) {
    && v.block < |s.blocks|
    && v.lo <= v.start <= v.end <= v.hi <= |s.blocks[v.block].original|
    && |v.ideal| == v.end - v.start
    && (v.phase.FirstCopied? ==> v.Fits() && |v.phase.bytes| == v.hi - v.lo)
  }

  function Buffer(s: State, v: Value): Bytes
    requires WellFormed(s) && WellPlaced(s, v)
  {
    s.blocks[v.block].current[v.lo..v.hi]
  }

  ghost function OriginalBuffer(s: State, v: Value): Bytes
    requires WellFormed(s) && WellPlaced(s, v)
  {
    s.blocks[v.block].original[v.lo..v.hi]
  }

  function View(s: State, v: Value): Bytes
    requires WellFormed(s) && WellPlaced(s, v)
  {
    s.blocks[v.block].current[v.start..v.end]
  }

  ghost function OriginalView(s: State, v: Value): Bytes
    requires WellFormed(s) && WellPlaced(s, v)
  {
    s.blocks[v.block].original[v.start..v.end]
  }

  predicate Validates(s: State, v: Value)
    requires WellFormed(s) && WellPlaced(s, v)
  {
    v.checksum == Checksum(Buffer(s, v))
  }

  // ----- Steps -----

  predicate IdleValue(s: State, h: Handle) {
    h in s.values && s.values[h].phase.Idle?
  }

  ghost predicate Enabled(s: State, e: Event)
    requires WellFormed(s)
  {
    match e
    case New(h, _) => h !in s.values
    case Slice(h, into, from, to) =>
      IdleValue(s, h) && into !in s.values && from <= to <= s.values[h].end - s.values[h].start
    case SplitOff(h, into, at) =>
      IdleValue(s, h) && into !in s.values && at < s.values[h].end - s.values[h].start
    case SumSlice(h) => IdleValue(s, h) && !s.values[h].Fits()
    case FinishShrink(h) => h in s.values && s.values[h].phase.SliceSummed?
    case ExtendByEmpty(h, other) =>
      h != other && IdleValue(s, h) && IdleValue(s, other) && s.values[other].Empty()
    case ReplaceEmpty(h, other) =>
      h != other && IdleValue(s, h) && IdleValue(s, other) && !s.values[other].Empty() && s.values[h].Empty()
    case CopyFirst(h, other) =>
      h != other && IdleValue(s, h) && IdleValue(s, other) && s.values[h].Fits() && s.values[other].Fits()
    case CopySecond(h) =>
      && h in s.values && s.values[h].phase.FirstCopied?
      && var other := s.values[h].phase.second;
      h != other && IdleValue(s, other) && s.values[other].Fits()
    case Drop(h) => IdleValue(s, h)
    case Corrupt(b, bytes) => b < |s.blocks| && Sticky(s.blocks[b], bytes)
  }

  /** Corruption changes bytes in place and is never undone: a byte once wrong stays wrong. */
  ghost predicate Sticky(b: Block, bytes: Bytes) {
    && |bytes| == |b.original| == |b.current|
    && forall i | 0 <= i < |bytes| :: b.current[i] != b.original[i] ==> bytes[i] != b.original[i]
  }

  ghost function Step(s: State, e: Event): State
    requires WellFormed(s) && Enabled(s, e)
  {
    State(NextBlocks(s, e), NextValues(s, e))
  }

  ghost function NextBlocks(s: State, e: Event): seq<Block>
    requires WellFormed(s) && Enabled(s, e)
  {
    match e
    case New(_, bytes) => s.blocks + [Block(bytes, bytes)]
    case CopySecond(h) =>
      var v := s.values[h];
      var w := s.values[v.phase.second];
      s.blocks + [Block(OriginalBuffer(s, v) + OriginalBuffer(s, w), v.phase.bytes + Buffer(s, w))]
    case Corrupt(b, bytes) => s.blocks[b := s.blocks[b].(current := bytes)]
    case _ => s.blocks
  }

  ghost function NextValues(s: State, e: Event): map<Handle, Value>
    requires WellFormed(s) && Enabled(s, e)
  {
    match e
    case New(h, bytes) =>
      s.values[h := Value(|s.blocks|, 0, |bytes|, 0, |bytes|, Checksum(bytes), Idle, bytes)]
    case Slice(h, into, from, to) => s.values[into := Cut(s.values[h], from, to)]
    case SplitOff(h, into, at) =>
      var v := s.values[h];
      s.values[h := Cut(v, 0, at)][into := Cut(v, at, v.end - v.start)]
    case SumSlice(h) =>
      var v := s.values[h];
      s.values[h := v.(phase := SliceSummed(Checksum(View(s, v))))]
    case FinishShrink(h) =>
      var v := s.values[h];
      s.values[h :=
        if Validates(s, v) then v.(lo := v.start, hi := v.end, checksum := v.phase.sum, phase := Idle)
        else v.(phase := Idle)]
    case ExtendByEmpty(h, other) => s.values - {other}
    case ReplaceEmpty(h, other) =>
      (if Validates(s, s.values[h]) then s.values[h := s.values[other]] else s.values) - {other}
    case CopyFirst(h, other) =>
      var v := s.values[h];
      s.values[h := v.(phase := FirstCopied(other, Buffer(s, v)))]
    case CopySecond(h) =>
      var v := s.values[h];
      s.values[h := Joined(s, v, s.values[v.phase.second])] - {v.phase.second}
    case Drop(h) => s.values - {h}
    case Corrupt(_, _) => s.values
  }

  function Cut(v: Value, from: nat, to: nat): Value
    requires from <= to <= |v.ideal|
  {
    v.(start := v.start + from, end := v.start + to, ideal := v.ideal[from..to])
  }

  function Joined(s: State, v: Value, w: Value): Value
    requires WellFormed(s) && WellPlaced(s, v) && WellPlaced(s, w)
  {
    var n, m := v.hi - v.lo, w.hi - w.lo;
    Value(|s.blocks|, 0, n + m, 0, n + m, Combine(v.checksum, w.checksum, m), Idle, v.ideal + w.ideal)
  }

  // ----- The invariant -----

  ghost predicate Clean(s: State, v: Value)
    requires WellFormed(s) && WellPlaced(s, v)
  {
    Buffer(s, v) == OriginalBuffer(s, v)
  }

  /** The checksum is that of the bytes the buffer was meant to hold, whatever it holds now, and the
      view was meant to read `ideal`. A pending exact checksum is right if the buffer is still clean:
      it was taken earlier, and corruption is never undone. */
  ghost predicate Tracks(s: State, v: Value)
    requires WellFormed(s) && WellPlaced(s, v)
  {
    && v.checksum == Checksum(OriginalBuffer(s, v))
    && v.ideal == OriginalView(s, v)
    && (v.phase.SliceSummed? && Clean(s, v) ==> v.phase.sum == Checksum(OriginalView(s, v)))
  }

  ghost predicate Inv(s: State) {
    WellFormed(s) && forall h <- s.values :: Tracks(s, s.values[h])
  }

  /** If corruption has reached the value's buffer, it changes the buffer's checksum. */
  ghost predicate Detectable(s: State, v: Value)
    requires WellFormed(s) && WellPlaced(s, v)
  {
    !Clean(s, v) ==> Checksum(Buffer(s, v)) != Checksum(OriginalBuffer(s, v))
  }

  /** What a step relies on: shrinking that the corruption of the one buffer it validates is detectable, any other
      step nothing. */
  ghost predicate Relies(s: State, e: Event)
    requires WellFormed(s) && Enabled(s, e)
  {
    e.FinishShrink? ==> Detectable(s, s.values[e.h])
  }

  /** A view of a clean buffer is clean. */
  lemma CleanView(s: State, v: Value)
    requires WellFormed(s) && WellPlaced(s, v) && Clean(s, v)
    ensures View(s, v) == OriginalView(s, v)
  {
    var b := s.blocks[v.block];
    SliceOfSlice(b.current, v.lo, v.hi, v.start - v.lo, v.end - v.lo);
    SliceOfSlice(b.original, v.lo, v.hi, v.start - v.lo, v.end - v.lo);
  }

  /** A value goes on tracking its block when the block stays put or, once summed, only gets worse. */
  lemma FrameValue(s: State, t: State, v: Value)
    requires WellFormed(s) && WellFormed(t) && WellPlaced(s, v) && Tracks(s, v)
    requires v.block < |t.blocks| && t.blocks[v.block].original == s.blocks[v.block].original
    requires Sticky(s.blocks[v.block], t.blocks[v.block].current)
    ensures WellPlaced(t, v) && Tracks(t, v)
  {
    hide Checksum;
    var was, now := s.blocks[v.block], t.blocks[v.block];
    if Clean(t, v) {
      forall i | v.lo <= i < v.hi ensures was.current[i] == was.original[i] {
        assert now.current[v.lo..v.hi][i - v.lo] == now.original[v.lo..v.hi][i - v.lo];
      }
      SameRange(was.current, was.original, v.lo, v.hi);
    }
  }

  lemma SameRange<T>(a: seq<T>, b: seq<T>, lo: nat, hi: nat)
    requires lo <= hi <= |a| == |b|
    requires forall i | lo <= i < hi :: a[i] == b[i]
    ensures a[lo..hi] == b[lo..hi]
  {
  }

  /** Shrinking takes the exact checksum BEFORE it validates the whole buffer. If validation then finds
      the buffer clean, it was clean when the checksum was taken. */
  lemma FinishShrinkKeeps(s: State, h: Handle)
    requires Inv(s) && Enabled(s, FinishShrink(h)) && Detectable(s, s.values[h])
    ensures Inv(Step(s, FinishShrink(h)))
  {
    hide Checksum;
    StepWellFormed(s, FinishShrink(h));
    var t := Step(s, FinishShrink(h));
    forall k <- t.values ensures Tracks(t, t.values[k]) {
      if k == h {
        var v := s.values[h];
        if Validates(s, v) {
          assert Clean(s, v);
        }
      } else {
        FrameValue(s, t, t.values[k]);
      }
    }
  }

  lemma CopySecondKeeps(s: State, h: Handle)
    requires Inv(s) && Enabled(s, CopySecond(h))
    ensures Inv(Step(s, CopySecond(h)))
  {
    hide Checksum, Combine;
    var t := Step(s, CopySecond(h));
    var v := s.values[h];
    var w := s.values[v.phase.second];
    var a, b := OriginalBuffer(s, v), OriginalBuffer(s, w);
    CombineExact(a, b);
    StepWellFormed(s, CopySecond(h));
    forall k <- t.values ensures Tracks(t, t.values[k]) {
      if k == h {
        assert (a + b)[0..|a + b|] == a + b;
      } else {
        FrameValue(s, t, t.values[k]);
      }
    }
  }

  /** Every step leaves the windows and views inside their blocks. */
  lemma StepWellFormed(s: State, e: Event)
    requires WellFormed(s) && Enabled(s, e)
    ensures WellFormed(Step(s, e))
  {
    hide Checksum, Combine;
    var t := Step(s, e);
    BlocksWellFormed(s, e);
    forall k <- t.values ensures WellPlaced(t, t.values[k]) {
      ValueWellPlaced(s, e, k);
    }
  }

  lemma BlocksWellFormed(s: State, e: Event)
    requires WellFormed(s) && Enabled(s, e)
    ensures var next := NextBlocks(s, e);
            && |s.blocks| <= |next|
            && (forall i | 0 <= i < |s.blocks| :: next[i].original == s.blocks[i].original)
            && (forall b <- next :: |b.current| == |b.original|)
  {
    hide Checksum, Combine, NextValues;
  }

  lemma ValueWellPlaced(s: State, e: Event, k: Handle)
    requires WellFormed(s) && Enabled(s, e)
    requires k in Step(s, e).values
    ensures WellPlaced(Step(s, e), Step(s, e).values[k])
  {
    hide Checksum, Combine, NextBlocks;
    BlocksWellFormed(s, e);
    if k in s.values && NextValues(s, e)[k] == s.values[k] {
      assert WellPlaced(s, s.values[k]);
    } else if e.New? || e.CopySecond? {
      BlocksGrow(s, e);
      JoinedWellPlaced(s, e, k);
    } else {
      ChangedWellPlaced(s, e, k);
    }
  }

  lemma ChangedWellPlaced(s: State, e: Event, k: Handle)
    requires WellFormed(s) && Enabled(s, e)
    requires k in NextValues(s, e) && !e.New? && !e.CopySecond?
    ensures WellPlaced(s, NextValues(s, e)[k])
  {
    hide Checksum, Combine, NextBlocks, Sticky, Validates, View;
    if e.Slice? || e.SplitOff? {
      CutsWellPlaced(s, e, k);
    } else {
      assert k in s.values && WellPlaced(s, s.values[k]);
      assert e.ReplaceEmpty? ==> WellPlaced(s, s.values[e.other]);
    }
  }

  lemma CutsWellPlaced(s: State, e: Event, k: Handle)
    requires WellFormed(s) && Enabled(s, e) && (e.Slice? || e.SplitOff?)
    requires k in NextValues(s, e)
    ensures WellPlaced(s, NextValues(s, e)[k])
  {
    hide Checksum, Combine, NextBlocks, Sticky, Validates, Buffer, View;
    assert WellPlaced(s, s.values[e.h]) && (k in s.values ==> WellPlaced(s, s.values[k]));
  }

  lemma JoinedWellPlaced(s: State, e: Event, k: Handle)
    requires WellFormed(s) && Enabled(s, e) && (e.New? || e.CopySecond?)
    requires k in NextValues(s, e) && (k in s.values ==> NextValues(s, e)[k] != s.values[k])
    ensures var v := NextValues(s, e)[k];
            && v.block == |s.blocks| && v.phase.Idle? && v.lo == v.start == 0
            && v.end == v.hi == |v.ideal|
            && v.hi == if e.New? then |e.bytes|
                       else |s.values[e.h].ideal| + |s.values[s.values[e.h].phase.second].ideal|
  {
    hide Checksum, Combine, NextBlocks;
    assert e.CopySecond? ==> WellPlaced(s, s.values[e.h]) && WellPlaced(s, s.values[s.values[e.h].phase.second]);
  }

  lemma BlocksGrow(s: State, e: Event)
    requires WellFormed(s) && Enabled(s, e)
    ensures e.New? ==> NextBlocks(s, e) == s.blocks + [Block(e.bytes, e.bytes)]
    ensures e.CopySecond? ==>
              var v := s.values[e.h];
              var w := s.values[v.phase.second];
              && |NextBlocks(s, e)| == |s.blocks| + 1
              && |NextBlocks(s, e)[|s.blocks|].original| == v.hi - v.lo + w.hi - w.lo
  {
    hide Checksum, Combine, NextValues;
  }

  lemma NewKeeps(s: State, h: Handle, bytes: Bytes)
    requires Inv(s) && Enabled(s, New(h, bytes))
    ensures Inv(Step(s, New(h, bytes)))
  {
    hide Checksum, Combine;
    StepWellFormed(s, New(h, bytes));
    var t := Step(s, New(h, bytes));
    forall k <- t.values ensures Tracks(t, t.values[k]) {
      if k == h {
        assert bytes[0..|bytes|] == bytes;
      } else {
        FrameValue(s, t, t.values[k]);
      }
    }
  }

  lemma SliceKeeps(s: State, h: Handle, into: Handle, from: nat, to: nat)
    requires Inv(s) && Enabled(s, Slice(h, into, from, to))
    ensures Inv(Step(s, Slice(h, into, from, to)))
  {
    hide Checksum, Combine;
    StepWellFormed(s, Slice(h, into, from, to));
    var t := Step(s, Slice(h, into, from, to));
    CutTracks(s, s.values[h], from, to);
    forall k <- t.values ensures Tracks(t, t.values[k]) {
      if k != into {
        FrameValue(s, t, t.values[k]);
      }
    }
  }

  lemma SplitOffKeeps(s: State, h: Handle, into: Handle, at: nat)
    requires Inv(s) && Enabled(s, SplitOff(h, into, at))
    ensures Inv(Step(s, SplitOff(h, into, at)))
  {
    hide Checksum, Combine;
    StepWellFormed(s, SplitOff(h, into, at));
    var t := Step(s, SplitOff(h, into, at));
    CutTracks(s, s.values[h], 0, at);
    CutTracks(s, s.values[h], at, |s.values[h].ideal|);
    forall k <- t.values ensures Tracks(t, t.values[k]) {
      if k != h && k != into {
        FrameValue(s, t, t.values[k]);
      }
    }
  }

  lemma SumSliceKeeps(s: State, h: Handle)
    requires Inv(s) && Enabled(s, SumSlice(h))
    ensures Inv(Step(s, SumSlice(h)))
  {
    hide Checksum, Combine;
    StepWellFormed(s, SumSlice(h));
    var t := Step(s, SumSlice(h));
    forall k <- t.values ensures Tracks(t, t.values[k]) {
      if k == h && Clean(s, s.values[h]) {
        CleanView(s, s.values[h]);
      } else if k != h {
        FrameValue(s, t, t.values[k]);
      }
    }
  }

  lemma OtherKeeps(s: State, e: Event)
    requires Inv(s) && Enabled(s, e)
    requires e.ExtendByEmpty? || e.CopyFirst? || e.Drop? || e.Corrupt?
    ensures Inv(Step(s, e))
  {
    hide Checksum, Combine;
    StepWellFormed(s, e);
    var t := Step(s, e);
    forall k <- t.values ensures Tracks(t, t.values[k]) {
      FrameValue(s, t, s.values[k]);
    }
  }

  lemma ReplaceEmptyKeeps(s: State, h: Handle, other: Handle)
    requires Inv(s) && Enabled(s, ReplaceEmpty(h, other))
    ensures Inv(Step(s, ReplaceEmpty(h, other)))
  {
    hide Checksum, Combine;
    StepWellFormed(s, ReplaceEmpty(h, other));
    var t := Step(s, ReplaceEmpty(h, other));
    forall k <- t.values ensures Tracks(t, t.values[k]) {
      FrameValue(s, t, t.values[k]);
    }
  }

  lemma StepKeeps(s: State, e: Event)
    requires Inv(s) && Enabled(s, e) && Relies(s, e)
    ensures Inv(Step(s, e))
  {
    hide Checksum, Combine, WellPlaced, Tracks, Clean, Step;
    match e
    case FinishShrink(h) => FinishShrinkKeeps(s, h);
    case CopySecond(h) => CopySecondKeeps(s, h);
    case SumSlice(h) => SumSliceKeeps(s, h);
    case ReplaceEmpty(h, other) => ReplaceEmptyKeeps(s, h, other);
    case New(h, bytes) => NewKeeps(s, h, bytes);
    case Slice(h, into, from, to) => SliceKeeps(s, h, into, from, to);
    case SplitOff(h, into, at) => SplitOffKeeps(s, h, into, at);
    case _ => OtherKeeps(s, e);
  }

  lemma CutTracks(s: State, v: Value, from: nat, to: nat)
    requires WellFormed(s) && WellPlaced(s, v) && Tracks(s, v) && v.phase.Idle?
    requires from <= to <= |v.ideal|
    ensures WellPlaced(s, Cut(v, from, to)) && Tracks(s, Cut(v, from, to))
  {
    hide Checksum;
    var original := s.blocks[v.block].original;
    SliceOfSlice(original, v.start, v.end, from, to);
  }

  // ----- Whole runs -----

  /** A run from the empty state. Events may come in any order, so operations on different values interleave
      freely, and corruption may come at any point. Where `shrink_to_fit` validates a buffer, its corruption must be
      detectable; nothing is asked of any other buffer, so errors may cancel where buffers are joined. */
  ghost predicate IsRun(states: seq<State>, events: seq<Event>) {
    && |states| == |events| + 1
    && states[0] == INITIAL
    && forall i | 0 <= i < |events| :: Follows(states[i], events[i], states[i + 1])
  }

  ghost predicate Follows(s: State, e: Event, t: State) {
    WellFormed(s) && Enabled(s, e) && Relies(s, e) && t == Step(s, e)
  }

  /** In every state of every run, every value's checksum is the CRC32C of the bytes its buffer was meant
      to hold, even if memory was corrupted before, between or inside the operations that made it. */
  lemma {:induction false} ChecksumTracksOriginal(states: seq<State>, events: seq<Event>, n: nat)
    requires IsRun(states, events) && n < |states|
    ensures Inv(states[n])
    decreases n
  {
    hide Checksum, Combine, Enabled, Step;
    if n != 0 {
      ChecksumTracksOriginal(states, events, n - 1);
      assert Follows(states[n - 1], events[n - 1], states[n]);
      StepKeeps(states[n - 1], events[n - 1]);
    }
  }

  /** The integrity guarantee: in every state of every run, bytes handed out after validation are exactly the
      bytes the value would hold in a world without corruption, if corruption of its buffer is detectable. */
  lemma ValidatedBytesAreOriginal(states: seq<State>, events: seq<Event>, n: nat, h: Handle)
    requires IsRun(states, events) && n < |states|
    requires h in states[n].values
    ensures Inv(states[n])
    ensures Clean(states[n], states[n].values[h]) ==> Validates(states[n], states[n].values[h])
    ensures Detectable(states[n], states[n].values[h]) && Validates(states[n], states[n].values[h]) ==>
              View(states[n], states[n].values[h]) == states[n].values[h].ideal
  {
    hide Checksum, Combine, Enabled, Step;
    ChecksumTracksOriginal(states, events, n);
    var s := states[n];
    var v := s.values[h];
    if Detectable(s, v) && Validates(s, v) {
      CleanView(s, v);
    }
  }

  // ----- How much the detectability assumption asks for -----

  /** Corruption of any one byte is detectable in every window that contains it. */
  lemma SingleByteCorruptionIsDetectable(original: Bytes, i: nat, x: Byte, lo: nat, hi: nat)
    requires lo <= i < hi <= |original| && x != original[i]
    ensures Checksum(original[i := x][lo..hi]) != Checksum(original[lo..hi])
  {
    hide Checksum;
    var a, b := original[lo..i], original[i + 1..hi];
    Around(original, i, original[i], lo, hi);
    Around(original, i, x, lo, hi);
    SingleByteErrorDetected(a, x, original[i], b);
  }

  lemma Around<T>(s: seq<T>, i: nat, x: T, lo: nat, hi: nat)
    requires lo <= i < hi <= |s|
    ensures s[i := x][lo..hi] == s[lo..i] + [x] + s[i + 1..hi]
    ensures s[i := s[i]] == s
  {
  }

  /** Joining two buffers of which at most one is corrupt cannot make the corruption undetectable. */
  lemma JoinStaysDetectable(a: Bytes, a': Bytes, b: Bytes, b': Bytes)
    requires |a| == |a'| && |b| == |b'| && (a == a' || b == b')
    requires (a != a' ==> Checksum(a) != Checksum(a')) && (b != b' ==> Checksum(b) != Checksum(b'))
    ensures a + b != a' + b' ==> Checksum(a + b) != Checksum(a' + b')
  {
    hide Checksum, Combine;
    CombineExact(a, b);
    CombineExact(a', b');
    if Checksum(a + b) == Checksum(a' + b') {
      CombineInjective(Checksum(a), Checksum(a'), Checksum(b), Checksum(b'), |b|);
    }
  }

  // ----- Why the order inside `shrink_to_fit` matters -----

  /** The last step of a shrink that validates first: the slice is summed and installed afterwards. */
  ghost function SummedLate(s: State, h: Handle): State
    requires WellFormed(s) && IdleValue(s, h)
  {
    var v := s.values[h];
    s.(values := s.values[h := v.(lo := v.start, hi := v.end, checksum := Checksum(View(s, v)))])
  }

  /** In every run, for every clean value and every byte in its view: if the buffer validates, the byte is then
      corrupted, and only then the slice is summed, the value ends up with corrupted bytes that validate. Validating
      last, as the code does, finds the corruption. */
  lemma SummingAfterValidationIsUnsound(states: seq<State>, events: seq<Event>, h: Handle, i: nat, x: Byte)
    requires IsRun(states, events) && Inv(states[|events|])
    requires var s := states[|events|];
             && IdleValue(s, h) && Clean(s, s.values[h])
             && s.values[h].start <= i < s.values[h].end && x != s.blocks[s.values[h].block].current[i]
    ensures var s := states[|events|];
            var v := s.values[h];
            var e := Corrupt(v.block, s.blocks[v.block].current[i := x]);
            && Validates(s, v)
            && Enabled(s, e) && IsRun(states + [Step(s, e)], events + [e])
            && var t := Step(s, e);
            && Inv(t) && IdleValue(t, h) && t.values[h] == v && Detectable(t, v) && !Validates(t, v)
            && var late := SummedLate(t, h);
            && WellFormed(late) && Validates(late, late.values[h])
            && View(late, late.values[h]) != late.values[h].ideal == v.ideal
  {
    hide Checksum, Combine, Enabled, Step, Relies;
    var s := states[|events|];
    var v := s.values[h];
    var e := Corrupt(v.block, s.blocks[v.block].current[i := x]);
    CorruptOne(s, v, i, x);
    StepKeeps(s, e);
    LateSumLaunders(s, h, i, x);
    RunAppends(states, events, e);
  }

  /** There is such a run for every buffer and every view of it. */
  lemma EveryViewIsReachable(bytes: Bytes, from: nat, to: nat) returns (states: seq<State>, events: seq<Event>)
    requires from <= to <= |bytes|
    ensures IsRun(states, events) && Inv(states[|events|])
    ensures var s := states[|events|];
            && IdleValue(s, 1) && Clean(s, s.values[1])
            && (s.values[1].start, s.values[1].end) == (from, to) && Buffer(s, s.values[1]) == bytes
  {
    hide Checksum, Combine, Enabled, Step, Inv, Follows, WellFormed;
    var s1 := FirstValue(bytes);
    var s2 := FirstSlice(bytes, from, to);
    RunStarts();
    RunAppends([INITIAL], [], New(0, bytes));
    RunAppends([INITIAL] + [s1], [] + [New(0, bytes)], Slice(0, 1, from, to));
    states := [INITIAL] + [s1] + [s2];
    events := [] + [New(0, bytes)] + [Slice(0, 1, from, to)];
  }

  lemma RunStarts()
    ensures IsRun([INITIAL], []) && Inv(INITIAL)
  {
  }

  lemma FirstValue(bytes: Bytes) returns (s: State)
    ensures Inv(INITIAL) && Enabled(INITIAL, New(0, bytes)) && Relies(INITIAL, New(0, bytes))
    ensures s == Step(INITIAL, New(0, bytes)) && Inv(s)
    ensures s == State([Block(bytes, bytes)], map[0 := Value(0, 0, |bytes|, 0, |bytes|, Checksum(bytes), Idle, bytes)])
  {
    hide Checksum, Combine;
    s := Step(INITIAL, New(0, bytes));
    StepKeeps(INITIAL, New(0, bytes));
  }

  lemma FirstSlice(bytes: Bytes, from: nat, to: nat) returns (s: State)
    requires from <= to <= |bytes|
    ensures var v := Value(0, 0, |bytes|, 0, |bytes|, Checksum(bytes), Idle, bytes);
            var s1 := State([Block(bytes, bytes)], map[0 := v]);
            var e := Slice(0, 1, from, to);
            Inv(s1) && Enabled(s1, e) && Relies(s1, e) && s == Step(s1, e) && Inv(s)
    ensures IdleValue(s, 1) && (s.values[1].start, s.values[1].end) == (from, to)
    ensures Buffer(s, s.values[1]) == bytes && Clean(s, s.values[1])
  {
    hide Checksum, Combine;
    var s1 := FirstValue(bytes);
    s := Step(s1, Slice(0, 1, from, to));
    StepKeeps(s1, Slice(0, 1, from, to));
    assert s.values[1] == Cut(s1.values[0], from, to) && s.blocks == s1.blocks;
    assert bytes[0..|bytes|] == bytes;
  }

  lemma RunAppends(states: seq<State>, events: seq<Event>, e: Event)
    requires IsRun(states, events) && Inv(states[|events|])
    requires Enabled(states[|events|], e) && Relies(states[|events|], e)
    ensures IsRun(states + [Step(states[|events|], e)], events + [e])
  {
    hide Checksum, Combine, Enabled, Step;
    var states', events' := states + [Step(states[|events|], e)], events + [e];
    forall i | 0 <= i < |events'| ensures Follows(states'[i], events'[i], states'[i + 1]) {
      if i < |events| {
        assert Follows(states[i], events[i], states[i + 1]);
      }
    }
  }

  /** Corrupting one byte of a clean value's view is detectable, and does not stay unnoticed. */
  lemma CorruptOne(s: State, v: Value, i: nat, x: Byte)
    requires Inv(s) && WellPlaced(s, v) && Clean(s, v)
    requires v.start <= i < v.end && x != s.blocks[v.block].current[i]
    ensures var e := Corrupt(v.block, s.blocks[v.block].current[i := x]);
            && Enabled(s, e) && Relies(s, e) && Step(s, e).values == s.values
            && var b := s.blocks[v.block];
            Step(s, e).blocks == s.blocks[v.block := Block(b.original, b.current[i := x])]
  {
    hide Checksum, Combine;
    var b := s.blocks[v.block];
    assert b.current[v.lo..v.hi][i - v.lo] == b.original[v.lo..v.hi][i - v.lo];
  }

  lemma LateSumLaunders(s: State, h: Handle, i: nat, x: Byte)
    requires Inv(s) && IdleValue(s, h) && Clean(s, s.values[h])
    requires s.values[h].start <= i < s.values[h].end && x != s.blocks[s.values[h].block].current[i]
    requires Enabled(s, Corrupt(s.values[h].block, s.blocks[s.values[h].block].current[i := x]))
    requires var v := s.values[h];
             var t := Step(s, Corrupt(v.block, s.blocks[v.block].current[i := x]));
             && Inv(t) && t.values == s.values
             && t.blocks == s.blocks[v.block := Block(s.blocks[v.block].original, s.blocks[v.block].current[i := x])]
    ensures var v := s.values[h];
            var t := Step(s, Corrupt(v.block, s.blocks[v.block].current[i := x]));
            var late := SummedLate(t, h);
            && Validates(s, v) && Detectable(t, v) && !Validates(t, v)
            && WellFormed(late) && Validates(late, late.values[h])
            && View(late, late.values[h]) != late.values[h].ideal == v.ideal
  {
    hide Checksum, Combine, Enabled, Step;
    var v := s.values[h];
    var b := s.blocks[v.block];
    var t := Step(s, Corrupt(v.block, b.current[i := x]));
    SingleByteCorruptionIsDetectable(b.current, i, x, v.lo, v.hi);
    SingleByteCorruptionIsDetectable(b.current, i, x, v.start, v.end);
    CleanView(s, v);
  }
}
