/** What the steps of the run model do, measured against two independent accounts of the same operations: the checked
    slices of a single thread, and plain byte strings that know of no buffers, checksums or corruption. */
module IntegrityRefinement {
  import opened ByteStrings
  import C = ChecksummedBytes
  import opened Crc32c
  import opened Integrity
  import opened Sequences

  // ----- Checked slices -----

  /** A value as the slice a single thread would hold. */
  ghost function AsSlice(s: State, v: Value): (c: C.CheckedSlice)
    requires WellFormed(s) && WellPlaced(s, v)
    ensures c.WellFormed()
  {
    C.CheckedSlice(Buffer(s, v), v.start - v.lo, v.end - v.lo, v.checksum)
  }

  lemma SliceView(s: State, v: Value)
    requires WellFormed(s) && WellPlaced(s, v)
    ensures AsSlice(s, v).View() == View(s, v) && AsSlice(s, v).Len() == v.end - v.start
    ensures (AsSlice(s, v).Validates() <==> Validates(s, v)) && (AsSlice(s, v).Fits() <==> v.Fits())
  {
    hide Checksum;
    SliceOfSlice(s.blocks[v.block].current, v.lo, v.hi, v.start - v.lo, v.end - v.lo);
  }

  /** The slice a handle holds after a step. */
  ghost function SliceAfter(s: State, e: Event, h: Handle): C.CheckedSlice
    requires WellFormed(s) && Enabled(s, e) && h in NextValues(s, e)
  {
    StepWellFormed(s, e);
    AsSlice(Step(s, e), Step(s, e).values[h])
  }

  lemma NewRefines(s: State, h: Handle, bytes: Bytes)
    requires WellFormed(s) && Enabled(s, New(h, bytes))
    ensures h in NextValues(s, New(h, bytes)) && SliceAfter(s, New(h, bytes), h) == C.Whole(bytes, Checksum(bytes))
  {
    hide Checksum, Combine;
    StepWellFormed(s, New(h, bytes));
    assert bytes[0..|bytes|] == bytes;
  }

  lemma SliceRefines(s: State, h: Handle, into: Handle, from: nat, to: nat)
    requires WellFormed(s) && Enabled(s, Slice(h, into, from, to))
    ensures var e, c := Slice(h, into, from, to), AsSlice(s, s.values[h]);
            && h in NextValues(s, e) && into in NextValues(s, e)
            && SliceAfter(s, e, h) == c
            && SliceAfter(s, e, into) == c.(start := c.start + from, end := c.start + to)
            && SliceAfter(s, e, into).View() == c.View()[from..to]
  {
    hide Checksum, Combine;
    StepWellFormed(s, Slice(h, into, from, to));
    var c := AsSlice(s, s.values[h]);
    SliceOfSlice(c.buffer, c.start, c.end, from, to);
  }

  lemma SplitOffRefines(s: State, h: Handle, into: Handle, at: nat)
    requires WellFormed(s) && Enabled(s, SplitOff(h, into, at))
    ensures var e, c := SplitOff(h, into, at), AsSlice(s, s.values[h]);
            && h in NextValues(s, e) && into in NextValues(s, e)
            && SliceAfter(s, e, h) == c.(end := c.start + at)
            && SliceAfter(s, e, into) == c.(start := c.start + at)
            && SliceAfter(s, e, h).View() + SliceAfter(s, e, into).View() == c.View()
  {
    hide Checksum, Combine;
    StepWellFormed(s, SplitOff(h, into, at));
    var c := AsSlice(s, s.values[h]);
    JoinSlices(c.buffer, c.start, c.start + at, c.end);
  }

  /** Both steps of `shrink_to_fit` with nothing in between. */
  lemma ShrinkRefines(s: State, h: Handle)
    requires WellFormed(s) && Enabled(s, SumSlice(h))
    ensures WellFormed(Step(s, SumSlice(h))) && Enabled(Step(s, SumSlice(h)), FinishShrink(h))
    ensures var t := Step(s, SumSlice(h));
            && h in NextValues(t, FinishShrink(h))
            && SliceAfter(t, FinishShrink(h), h) == C.Shrunk(AsSlice(s, s.values[h])).0
  {
    hide Checksum, Combine;
    StepWellFormed(s, SumSlice(h));
    var t := Step(s, SumSlice(h));
    StepWellFormed(t, FinishShrink(h));
    SliceView(s, s.values[h]);
    var v := Step(t, FinishShrink(h)).values[h];
    assert t.blocks == s.blocks && Step(t, FinishShrink(h)).blocks == s.blocks;
    assert t.values[h] == s.values[h].(phase := SliceSummed(Checksum(View(s, s.values[h]))));
  }

  lemma ExtendByEmptyRefines(s: State, h: Handle, other: Handle)
    requires WellFormed(s) && Enabled(s, ExtendByEmpty(h, other))
    ensures var e := ExtendByEmpty(h, other);
            && h in NextValues(s, e) && other !in NextValues(s, e)
            && SliceAfter(s, e, h) == C.Extended(AsSlice(s, s.values[h]), AsSlice(s, s.values[other])).0
  {
    hide Checksum, Combine;
    StepWellFormed(s, ExtendByEmpty(h, other));
  }

  lemma ReplaceEmptyRefines(s: State, h: Handle, other: Handle)
    requires WellFormed(s) && Enabled(s, ReplaceEmpty(h, other))
    ensures var e := ReplaceEmpty(h, other);
            && h in NextValues(s, e) && other !in NextValues(s, e)
            && SliceAfter(s, e, h) == C.Extended(AsSlice(s, s.values[h]), AsSlice(s, s.values[other])).0
  {
    hide Checksum, Combine;
    StepWellFormed(s, ReplaceEmpty(h, other));
    SliceView(s, s.values[h]);
  }

  /** Both copying steps of `extend`, on values shrunk before, with nothing in between. */
  lemma CopyRefines(s: State, h: Handle, other: Handle)
    requires WellFormed(s) && Enabled(s, CopyFirst(h, other)) && !s.values[h].Empty() && !s.values[other].Empty()
    ensures WellFormed(Step(s, CopyFirst(h, other))) && Enabled(Step(s, CopyFirst(h, other)), CopySecond(h))
    ensures var t := Step(s, CopyFirst(h, other));
            && h in NextValues(t, CopySecond(h)) && other !in NextValues(t, CopySecond(h))
            && SliceAfter(t, CopySecond(h), h)
               == C.Extended(AsSlice(s, s.values[h]), AsSlice(s, s.values[other])).0
  {
    hide Checksum, Combine;
    StepWellFormed(s, CopyFirst(h, other));
    var t := Step(s, CopyFirst(h, other));
    StepWellFormed(t, CopySecond(h));
    var joined := Buffer(s, s.values[h]) + Buffer(s, s.values[other]);
    assert joined[0..|joined|] == joined;
    var u := Step(t, CopySecond(h));
    assert u.blocks[|s.blocks|].current == joined;
  }

  /** On any two idle values `extend` can go on: by the step for an empty operand, by shrinking one that does not fit,
      or by copying. */
  lemma ExtendProceeds(s: State, h: Handle, other: Handle)
    requires WellFormed(s) && h != other && IdleValue(s, h) && IdleValue(s, other)
    ensures var v, w := s.values[h], s.values[other];
            if w.start == w.end then Enabled(s, ExtendByEmpty(h, other))
            else if v.start == v.end then Enabled(s, ReplaceEmpty(h, other))
            else if v.end - v.start != v.hi - v.lo then Enabled(s, SumSlice(h))
            else if w.end - w.start != w.hi - w.lo then Enabled(s, SumSlice(other))
            else Enabled(s, CopyFirst(h, other))
  {
    hide Checksum;
    assert WellPlaced(s, s.values[h]) && WellPlaced(s, s.values[other]);
  }

  /** The handles a step may change. */
  function Touches(s: State, e: Event): set<Handle> {
    match e
    case New(h, _) => {h}
    case Slice(_, into, _, _) => {into}
    case SplitOff(h, into, _) => {h, into}
    case SumSlice(h) => {h}
    case FinishShrink(h) => {h}
    case ExtendByEmpty(_, other) => {other}
    case ReplaceEmpty(h, other) => {h, other}
    case CopyFirst(h, _) => {h}
    case CopySecond(h) =>
      if h in s.values && s.values[h].phase.FirstCopied? then {h, s.values[h].phase.second} else {h}
    case Drop(h) => {h}
    case Corrupt(_, _) => {}
  }

  /** Every other handle holds the same slice as before, unless memory is being corrupted. */
  lemma OthersAreUntouched(s: State, e: Event, k: Handle)
    requires WellFormed(s) && Enabled(s, e) && k !in Touches(s, e)
    ensures k in s.values <==> k in NextValues(s, e)
    ensures k in s.values && !e.Corrupt? ==> SliceAfter(s, e, k) == AsSlice(s, s.values[k])
  {
    hide Checksum, Combine, NextValues, NextBlocks, Enabled, Touches;
    StepWellFormed(s, e);
    SameValue(s, e, k);
    if k in s.values && !e.Corrupt? {
      assert WellPlaced(s, s.values[k]);
      BlocksStay(s, e, s.values[k].block);
    }
  }

  lemma SameValue(s: State, e: Event, k: Handle)
    requires WellFormed(s) && Enabled(s, e) && k !in Touches(s, e)
    ensures k in s.values <==> k in NextValues(s, e)
    ensures k in s.values ==> NextValues(s, e)[k] == s.values[k]
  {
    hide Checksum, Combine, NextBlocks, Sticky, Validates, View, Buffer;
  }

  // ----- Plain byte strings -----

  /** The byte strings that handles hold, and which is about to be joined to which. */
  datatype Plain = Plain(values: map<Handle, Bytes>, joining: map<Handle, Handle>) {
    function Put(h: Handle, bytes: Bytes): Plain {
      this.(values := values[h := bytes])
    }

    function Get(h: Handle): Bytes {
      if h in values then values[h] else []
    }

    function Remove(h: Handle): Plain {
      this.(values := values - {h})
    }

    /** Appends the bytes of `other` to those of `h`, and forgets `other`. */
    function Join(h: Handle, other: Handle): Plain {
      Put(h, Get(h) + Get(other)).Remove(other)
    }
  }

  function Range(s: Bytes, from: nat, to: nat): Bytes {
    if from <= to <= |s| then s[from..to] else []
  }

  /** What an operation means for plain byte strings, given whether it reported success: buffers are made, cut and
      appended to; shrinking and corruption mean nothing. */
  function PlainStep(p: Plain, e: Event, ok: bool): Plain {
    match e
    case New(h, bytes) => p.Put(h, bytes)
    case Slice(h, into, from, to) => p.Put(into, Range(p.Get(h), from, to))
    case SplitOff(h, into, at) =>
      p.Put(h, Range(p.Get(h), 0, at)).Put(into, Range(p.Get(h), at, |p.Get(h)|))
    case ExtendByEmpty(h, other) => if ok then p.Join(h, other) else p.Remove(other)
    case ReplaceEmpty(h, other) => if ok then p.Join(h, other) else p.Remove(other)
    case CopyFirst(h, other) => p.(joining := p.joining[h := other])
    case CopySecond(h) => if h in p.joining then p.Join(h, p.joining[h]) else p
    case Drop(h) => p.Remove(h)
    case SumSlice(_) => p
    case FinishShrink(_) => p
    case Corrupt(_, _) => p
  }

  /** Whether a step reports success to the program; only the validation of an empty operand can fail here. */
  predicate Reports(s: State, e: Event)
    requires WellFormed(s) && Enabled(s, e)
  {
    match e
    case ExtendByEmpty(_, other) => Validates(s, s.values[other])
    case ReplaceEmpty(h, _) => Validates(s, s.values[h])
    case _ => true
  }

  /** The byte strings the program should hold, from the operations it made and the successes it saw. */
  ghost function Replay(states: seq<State>, events: seq<Event>, n: nat): Plain
    requires IsRun(states, events) && n <= |events|
    decreases n
  {
    if n == 0 then Plain(map[], map[])
    else
      assert Follows(states[n - 1], events[n - 1], states[n]);
      PlainStep(Replay(states, events, n - 1), events[n - 1], Reports(states[n - 1], events[n - 1]))
  }

  /** The model's record of what a value should hold is the plain account. */
  ghost predicate AgreesAt(s: State, p: Plain, h: Handle) {
    && (h in s.values <==> h in p.values)
    && (h in s.values ==> s.values[h].ideal == p.values[h])
    && (h in s.values && s.values[h].phase.FirstCopied? ==>
          h in p.joining && p.joining[h] == s.values[h].phase.second)
  }

  ghost predicate Agrees(s: State, p: Plain) {
    forall h :: AgreesAt(s, p, h)
  }

  lemma CutAgrees(s: State, e: Event, p: Plain, k: Handle)
    requires WellFormed(s) && Enabled(s, e) && Agrees(s, p) && (e.New? || e.Slice? || e.SplitOff?)
    ensures AgreesAt(Step(s, e), PlainStep(p, e, Reports(s, e)), k)
  {
    hide Checksum, Combine, NextBlocks;
    assert AgreesAt(s, p, k) && AgreesAt(s, p, e.h);
  }

  lemma ExtendAgrees(s: State, e: Event, p: Plain, k: Handle)
    requires WellFormed(s) && Enabled(s, e) && Agrees(s, p) && (e.ExtendByEmpty? || e.ReplaceEmpty?)
    ensures AgreesAt(Step(s, e), PlainStep(p, e, Reports(s, e)), k)
  {
    hide Checksum, Combine, NextBlocks, Validates;
    assert AgreesAt(s, p, k) && AgreesAt(s, p, e.h) && AgreesAt(s, p, e.other);
    assert WellPlaced(s, s.values[e.h]) && WellPlaced(s, s.values[e.other]);
    Nil(s.values[e.h].ideal);
    Nil(s.values[e.other].ideal);
  }

  lemma CopyAgrees(s: State, e: Event, p: Plain, k: Handle)
    requires WellFormed(s) && Enabled(s, e) && Agrees(s, p) && (e.CopyFirst? || e.CopySecond?)
    ensures AgreesAt(Step(s, e), PlainStep(p, e, Reports(s, e)), k)
  {
    hide Checksum, Combine, NextBlocks;
    assert AgreesAt(s, p, k) && AgreesAt(s, p, e.h);
    if e.CopySecond? {
      assert AgreesAt(s, p, s.values[e.h].phase.second);
    }
  }

  lemma OtherAgrees(s: State, e: Event, p: Plain, k: Handle)
    requires WellFormed(s) && Enabled(s, e) && Agrees(s, p)
    requires e.SumSlice? || e.FinishShrink? || e.Drop? || e.Corrupt?
    ensures AgreesAt(Step(s, e), PlainStep(p, e, Reports(s, e)), k)
  {
    hide Checksum, Combine, NextBlocks, Sticky, Validates;
    assert AgreesAt(s, p, k);
  }

  lemma PlainStepAgrees(s: State, e: Event, p: Plain)
    requires WellFormed(s) && Enabled(s, e) && Agrees(s, p)
    ensures Agrees(Step(s, e), PlainStep(p, e, Reports(s, e)))
  {
    hide Checksum, Combine, Step, PlainStep, Reports, AgreesAt, Enabled;
    forall k ensures AgreesAt(Step(s, e), PlainStep(p, e, Reports(s, e)), k) {
      if e.New? || e.Slice? || e.SplitOff? {
        CutAgrees(s, e, p, k);
      } else if e.ExtendByEmpty? || e.ReplaceEmpty? {
        ExtendAgrees(s, e, p, k);
      } else if e.CopyFirst? || e.CopySecond? {
        CopyAgrees(s, e, p, k);
      } else {
        OtherAgrees(s, e, p, k);
      }
    }
  }

  lemma {:induction false} ReplayAgrees(states: seq<State>, events: seq<Event>, n: nat)
    requires IsRun(states, events) && n <= |events|
    ensures Agrees(states[n], Replay(states, events, n))
    decreases n
  {
    hide Checksum, Combine, Enabled, Step, Agrees, PlainStep, Reports;
    if n == 0 {
      NothingAgrees();
    } else {
      ReplayAgrees(states, events, n - 1);
      assert Follows(states[n - 1], events[n - 1], states[n]);
      PlainStepAgrees(states[n - 1], events[n - 1], Replay(states, events, n - 1));
    }
  }

  lemma NothingAgrees()
    ensures Agrees(INITIAL, Plain(map[], map[]))
  {
  }

  /** The integrity guarantee in plain terms: in every state of every run, bytes handed out after validation are the
      byte string that the operations made of what was put in, if corruption of that buffer is detectable. */
  lemma ValidatedBytesArePlain(states: seq<State>, events: seq<Event>, n: nat, h: Handle)
    requires IsRun(states, events) && n <= |events|
    ensures h in states[n].values <==> h in Replay(states, events, n).values
    ensures h in states[n].values ==> Inv(states[n])
    ensures h in states[n].values ==>
              var s, v := states[n], states[n].values[h];
              Detectable(s, v) && Validates(s, v) ==> View(s, v) == Replay(states, events, n).values[h]
  {
    hide Checksum, Combine, Enabled, Step, Replay, Detectable, Validates, View;
    ReplayAgrees(states, events, n);
    assert AgreesAt(states[n], Replay(states, events, n), h);
    if h in states[n].values {
      ValidatedBytesAreOriginal(states, events, n, h);
    }
  }

  // ----- Runs without corruption -----

  /** What the operations make of what is put in, if they all succeed. */
  function Meaning(events: seq<Event>, n: nat): Plain
    requires n <= |events|
    decreases n
  {
    if n == 0 then Plain(map[], map[]) else PlainStep(Meaning(events, n - 1), events[n - 1], true)
  }

  ghost predicate Untainted(s: State)
    requires WellFormed(s)
  {
    && (forall b <- s.blocks :: b.current == b.original)
    && (forall h <- s.values | s.values[h].phase.FirstCopied? ::
          s.values[h].phase.bytes == OriginalBuffer(s, s.values[h]))
  }

  lemma UntaintedStep(s: State, e: Event)
    requires WellFormed(s) && Enabled(s, e) && !e.Corrupt? && Untainted(s)
    ensures WellFormed(Step(s, e)) && Untainted(Step(s, e))
  {
    hide Checksum, Combine;
    StepWellFormed(s, e);
    var t := Step(s, e);
    assert forall i | 0 <= i < |s.blocks| :: t.blocks[i] == s.blocks[i];
    forall h <- t.values | t.values[h].phase.FirstCopied?
      ensures t.values[h].phase.bytes == OriginalBuffer(t, t.values[h])
    {
      CopiedIsOriginal(s, e, h);
    }
  }

  /** A value that is being copied was being copied before, or has just been. */
  lemma StillCopying(s: State, e: Event, h: Handle)
    requires WellFormed(s) && Enabled(s, e) && h in NextValues(s, e) && NextValues(s, e)[h].phase.FirstCopied?
    ensures h in s.values
    ensures var v := s.values[h];
            NextValues(s, e)[h] == v || NextValues(s, e)[h].phase.bytes == Buffer(s, v)
    ensures var v, w := s.values[h], NextValues(s, e)[h]; w.block == v.block && w.lo == v.lo && w.hi == v.hi
  {
    hide Checksum, Combine, NextBlocks, Sticky, Validates, View, Buffer;
  }

  lemma BlocksStay(s: State, e: Event, i: nat)
    requires WellFormed(s) && Enabled(s, e) && !e.Corrupt? && i < |s.blocks|
    ensures i < |NextBlocks(s, e)| && NextBlocks(s, e)[i] == s.blocks[i]
  {
    hide Checksum, Combine, NextValues;
  }

  lemma CopiedIsOriginal(s: State, e: Event, h: Handle)
    requires WellFormed(s) && Enabled(s, e) && !e.Corrupt? && Untainted(s)
    requires WellFormed(Step(s, e)) && h in Step(s, e).values && Step(s, e).values[h].phase.FirstCopied?
    ensures Step(s, e).values[h].phase.bytes == OriginalBuffer(Step(s, e), Step(s, e).values[h])
  {
    hide Checksum, Combine, NextValues, NextBlocks, Enabled;
    StillCopying(s, e, h);
    var v := s.values[h];
    assert WellPlaced(s, v);
    BlocksStay(s, e, v.block);
    assert s.blocks[v.block] in s.blocks;
  }

  lemma UntaintedValidates(s: State, h: Handle)
    requires Inv(s) && Untainted(s) && h in s.values
    ensures Validates(s, s.values[h]) && View(s, s.values[h]) == s.values[h].ideal
  {
    hide Checksum;
    assert Tracks(s, s.values[h]) && s.blocks[s.values[h].block] in s.blocks;
  }

  lemma UntaintedReports(s: State, e: Event)
    requires Inv(s) && Untainted(s) && Enabled(s, e)
    ensures Reports(s, e)
  {
    hide Checksum, Combine, Validates;
    if e.ExtendByEmpty? {
      UntaintedValidates(s, e.other);
    } else if e.ReplaceEmpty? {
      UntaintedValidates(s, e.h);
    }
  }

  lemma {:induction false} UntaintedRun(states: seq<State>, events: seq<Event>, n: nat)
    requires IsRun(states, events) && n <= |events| && forall i | 0 <= i < n :: !events[i].Corrupt?
    ensures Inv(states[n]) && Untainted(states[n]) && Replay(states, events, n) == Meaning(events, n)
    decreases n
  {
    hide Checksum, Combine, Enabled, Step, Untainted, PlainStep, Reports;
    ChecksumTracksOriginal(states, events, n);
    if n == 0 {
      NothingTainted();
    } else {
      UntaintedRun(states, events, n - 1);
      assert Follows(states[n - 1], events[n - 1], states[n]);
      UntaintedStep(states[n - 1], events[n - 1]);
      UntaintedReports(states[n - 1], events[n - 1]);
    }
  }

  lemma NothingTainted()
    ensures WellFormed(INITIAL) && Untainted(INITIAL)
  {
  }

  /** In every state of every run without corruption, every value validates and reads exactly what the operations,
      taken as operations on byte strings, made of what was put in. */
  lemma UncorruptedRunIsPlain(states: seq<State>, events: seq<Event>, n: nat, h: Handle)
    requires IsRun(states, events) && n <= |events| && forall i | 0 <= i < n :: !events[i].Corrupt?
    ensures Inv(states[n]) && (h in states[n].values <==> h in Meaning(events, n).values)
    ensures h in states[n].values ==>
              && Validates(states[n], states[n].values[h])
              && View(states[n], states[n].values[h]) == Meaning(events, n).values[h]
  {
    hide Checksum, Combine, Enabled, Step, Untainted, Meaning, Replay, Validates, View;
    UntaintedRun(states, events, n);
    ReplayAgrees(states, events, n);
    assert AgreesAt(states[n], Replay(states, events, n), h);
    if h in states[n].values {
      UntaintedValidates(states[n], h);
    }
  }
}
