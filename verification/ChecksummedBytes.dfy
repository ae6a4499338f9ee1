/** A byte buffer that carries its checksum, cut and joined without rechecking the data unless it must.

    `CheckedSlice` is the value of one such buffer: the underlying bytes, the sub-range in view and the
    checksum of the WHOLE underlying buffer. The class `ChecksummedBytes` updates it in place.
  */
module ChecksummedBytes {
  import opened ByteStrings
  import opened Crc32c
  import opened Sequences

  datatype Integrity = Intact | ChecksumMismatch(expected: Crc, actual: Crc)

  datatype CheckedSlice = CheckedSlice(buffer: Bytes, start: nat, end: nat, checksum: Crc) {
    ghost predicate WellFormed() {
      start <= end <= |buffer|
    }

    /** The bytes in view. */
    function View(): Bytes
      requires WellFormed()
    {
      buffer[start..end]
    }

    function Len(): nat
      requires WellFormed()
    {
      end - start
    }

    /** The view is the whole buffer, so the checksum is that of the view. */
    predicate Fits()
      requires WellFormed()
    {
      Len() == |buffer|
    }

    predicate Validates() {
      checksum == Checksum(buffer)
    }
  }

  function Whole(bytes: Bytes, checksum: Crc): CheckedSlice {
    CheckedSlice(bytes, 0, |bytes|, checksum)
  }

  function Validation(v: CheckedSlice): Integrity {
    if v.Validates() then Intact else ChecksumMismatch(v.checksum, Checksum(v.buffer))
  }

  /** `shrink_to_fit`: what becomes of the slice, and the error if the whole buffer was corrupt. */
  function Shrunk(v: CheckedSlice): (r: (CheckedSlice, Integrity))
    requires v.WellFormed()
    ensures r.0.WellFormed()
  {
    if v.Fits() then (v, Intact)
    else if !v.Validates() then (v, Validation(v))
    else (Whole(v.View(), Checksum(v.View())), Intact)
  }

  /** `extend`: what becomes of the receiver, and the error if corruption was found on the way. */
  function Extended(v: CheckedSlice, w: CheckedSlice): (r: (CheckedSlice, Integrity))
    requires v.WellFormed() && w.WellFormed()
    ensures r.0.WellFormed()
  {
    if w.Len() == 0 then (v, Validation(w))
    else if v.Len() == 0 then (if v.Validates() then (w, Intact) else (v, Validation(v)))
    else
      var (v', e) := Shrunk(v);
      if !e.Intact? then (v', e) else
      var (w', f) := Shrunk(w);
      if !f.Intact? then (v', f) else
      (Whole(v'.buffer + w'.buffer, Combine(v'.checksum, w'.checksum, w'.Len())), Intact)
  }

  // ----- What the operations promise -----

  /** Shrinking never changes the bytes in view nor hides a bad checksum, and fails only when it
      would have to give a new checksum to a buffer that does not validate. */
  lemma ShrinkKeepsMeaning(v: CheckedSlice)
    requires v.WellFormed()
    ensures var (s, e) := Shrunk(v);
            && s.View() == v.View()
            && (s.Validates() <==> v.Validates())
            && (e.Intact? ==> s.Fits() && s.buffer == v.View())
            && (e.Intact? <==> v.Fits() || v.Validates())
  {
    hide Checksum, Combine;
  }

  /** Extending one sound slice by another always succeeds, with a sound slice of the concatenation,
      whatever larger buffers the two were cut from. */
  lemma ExtendJoins(v: CheckedSlice, w: CheckedSlice)
    requires v.WellFormed() && w.WellFormed()
    requires v.Validates() && w.Validates()
    ensures var (r, e) := Extended(v, w);
            e.Intact? && r.Validates() && r.View() == v.View() + w.View()
  {
    hide Checksum, Combine;
    ShrinkKeepsMeaning(v);
    ShrinkKeepsMeaning(w);
    CombineExact(Shrunk(v).0.buffer, Shrunk(w).0.buffer);
  }

  /** Two exactly fitting operands are joined without looking at their data; their checksum errors
      must then cancel for the result to validate. */
  ghost predicate ErrorsCancel(v: CheckedSlice, w: CheckedSlice)
    requires v.WellFormed() && w.WellFormed()
  {
    && v.Len() != 0 && w.Len() != 0 && v.Fits() && w.Fits()
    && Combine(v.checksum, w.checksum, |w.buffer|)
       == Combine(Checksum(v.buffer), Checksum(w.buffer), |w.buffer|)
  }

  /** Exactly when `extend` succeeds with a slice that validates. */
  lemma ExtendSoundIff(v: CheckedSlice, w: CheckedSlice)
    requires v.WellFormed() && w.WellFormed()
    ensures var (r, e) := Extended(v, w);
            e.Intact? && r.Validates() <==> (v.Validates() && w.Validates()) || ErrorsCancel(v, w)
  {
    hide Checksum, Combine;
    var (r, e) := Extended(v, w);
    if v.Validates() && w.Validates() {
      ExtendJoins(v, w);
    } else if v.Len() != 0 && w.Len() != 0 {
      ShrinkKeepsMeaning(v);
      ShrinkKeepsMeaning(w);
      var v', w' := Shrunk(v).0, Shrunk(w).0;
      CombineExact(v'.buffer, w'.buffer);
      if e.Intact? && r.Validates() {
        CombineInjective(v'.checksum, Checksum(v'.buffer), w'.checksum, Checksum(w'.buffer), |w'.buffer|);
      }
    }
  }

  /** Exactly when `extend` reports corruption, and that it then leaves the receiver's bytes and reports the mismatch of
      an operand that fails validation. */
  lemma ExtendFailsIff(v: CheckedSlice, w: CheckedSlice)
    requires v.WellFormed() && w.WellFormed()
    ensures var (r, e) := Extended(v, w);
            && (e.Intact? <==> if w.Len() == 0 then w.Validates()
                               else if v.Len() == 0 then v.Validates()
                               else (v.Fits() || v.Validates()) && (w.Fits() || w.Validates()))
            && (!e.Intact? ==>
                  && r.View() == v.View()
                  && (|| (!v.Validates() && e == ChecksumMismatch(v.checksum, Checksum(v.buffer)))
                      || (!w.Validates() && e == ChecksumMismatch(w.checksum, Checksum(w.buffer)))))
  {
    hide Checksum, Combine;
    ShrinkKeepsMeaning(v);
    ShrinkKeepsMeaning(w);
  }

  /** One bad operand is never laundered: either the call fails and the receiver's bytes stay as they
      were, or the result still fails validation. */
  lemma OneBadOperandIsNeverLaundered(v: CheckedSlice, w: CheckedSlice)
    requires v.WellFormed() && w.WellFormed()
    requires v.Validates() != w.Validates()
    ensures var (r, e) := Extended(v, w);
            (!e.Intact? && r.View() == v.View()) || (e.Intact? && !r.Validates())
  {
    hide Checksum, Combine;
    ExtendSoundIff(v, w);
    ShrinkKeepsMeaning(v);
    if ErrorsCancel(v, w) {
      CombineInjective(v.checksum, Checksum(v.buffer), w.checksum, Checksum(w.buffer), |w.buffer|);
    }
  }

  /** Two bad operands can be laundered: for every data and every wrong checksum on the left there is a
      wrong checksum on the right that makes the joined slice validate. */
  lemma TwoBadOperandsCanCancel(a: Bytes, b: Bytes, wrong: Crc) returns (w: CheckedSlice)
    requires a != [] && b != []
    requires wrong != Checksum(a)
    ensures w == Whole(b, w.checksum) && !w.Validates()
    ensures var (r, e) := Extended(Whole(a, wrong), w);
            e.Intact? && r.Validates() && r.View() == a + b
  {
    hide Checksum, Combine;
    var v := Whole(a, wrong);
    w := Whole(b, Combine(wrong, Checksum(a + b), |b|));
    CombineUndo(wrong, Checksum(a + b), |b|);
    CombineExact(a, b);
    if w.Validates() {
      CombineInjective(wrong, Checksum(a), w.checksum, Checksum(b), |b|);
    }
  }

  // ----- Many pieces -----

  ghost predicate AllWellFormed(pieces: seq<CheckedSlice>) {
    forall i | 0 <= i < |pieces| :: pieces[i].WellFormed()
  }

  /** Pieces joined one after another to the default buffer, up to the first error. */
  function ExtendedAll(pieces: seq<CheckedSlice>): (r: (CheckedSlice, Integrity))
    requires AllWellFormed(pieces)
    ensures r.0.WellFormed()
  {
    if pieces == [] then (Whole([], 0), Intact)
    else
      var (v, e) := ExtendedAll(pieces[..|pieces| - 1]);
      if !e.Intact? then (v, e) else Extended(v, pieces[|pieces| - 1])
  }

  ghost function Views(pieces: seq<CheckedSlice>): Bytes
    requires AllWellFormed(pieces)
  {
    if pieces == [] then [] else Views(pieces[..|pieces| - 1]) + pieces[|pieces| - 1].View()
  }

  /** Any number of sound pieces join into a sound slice of them all. */
  lemma {:induction false} SoundPiecesJoin(pieces: seq<CheckedSlice>)
    requires AllWellFormed(pieces) && forall i | 0 <= i < |pieces| :: pieces[i].Validates()
    ensures var (r, e) := ExtendedAll(pieces); e.Intact? && r.Validates() && r.View() == Views(pieces)
    decreases |pieces|
  {
    hide Checksum, Combine, Extended, CheckedSlice.Validates;
    if pieces == [] {
      DefaultIsSound();
    } else {
      var init := pieces[..|pieces| - 1];
      SoundPiecesJoin(init);
      ExtendJoins(ExtendedAll(init).0, pieces[|pieces| - 1]);
    }
  }

  lemma DefaultIsSound()
    ensures Whole([], 0).Validates() && Whole([], 0).View() == []
  {
    ChecksumEmpty();
  }

  /** A corrupt piece that is its whole buffer, so that it is joined without being looked at. */
  ghost predicate JoinsUnseen(v: CheckedSlice)
    requires v.WellFormed()
  {
    v.Fits() && !v.Validates()
  }

  /** What one more join says about its operands, if at most one of them can be corrupt and unseen. */
  lemma JoinShows(v: CheckedSlice, w: CheckedSlice)
    requires v.WellFormed() && w.WellFormed()
    requires !(JoinsUnseen(v) && JoinsUnseen(w))
    ensures var (r, e) := Extended(v, w);
            && (e.Intact? && r.Validates() ==> v.Validates() && w.Validates())
            && (e.Intact? && JoinsUnseen(r) ==> JoinsUnseen(v) || JoinsUnseen(w))
  {
    hide Checksum, Combine;
    ExtendSoundIff(v, w);
    if v.Validates() && w.Validates() {
      ExtendJoins(v, w);
    } else if ErrorsCancel(v, w) {
      CombineInjective(v.checksum, Checksum(v.buffer), w.checksum, Checksum(w.buffer), |w.buffer|);
    }
  }

  /** A joined slice that validates is made of sound pieces only, if no two corrupt pieces are whole buffers. */
  lemma {:induction false} ValidJoinIsSound(pieces: seq<CheckedSlice>)
    requires AllWellFormed(pieces)
    requires forall i, j | 0 <= i < j < |pieces| :: !(JoinsUnseen(pieces[i]) && JoinsUnseen(pieces[j]))
    ensures var (r, e) := ExtendedAll(pieces);
            && (e.Intact? && r.Validates() ==>
                  (forall i | 0 <= i < |pieces| :: pieces[i].Validates()) && r.View() == Views(pieces))
            && (e.Intact? && JoinsUnseen(r) ==> exists i :: 0 <= i < |pieces| && JoinsUnseen(pieces[i]))
    decreases |pieces|
  {
    hide Checksum, Combine, Extended, CheckedSlice.Validates, JoinsUnseen;
    if pieces == [] {
      DefaultIsSound();
      SoundIsSeen(Whole([], 0));
    } else {
      var n := |pieces| - 1;
      var init, last := pieces[..n], pieces[n];
      ValidJoinIsSound(init);
      var (v, e) := ExtendedAll(init);
      if e.Intact? {
        JoinShows(v, last);
        var (r, f) := Extended(v, last);
        if f.Intact? && r.Validates() {
          SoundPiecesJoin(pieces);
        }
      }
    }
  }

  lemma SoundIsSeen(v: CheckedSlice)
    requires v.WellFormed() && v.Validates()
    ensures !JoinsUnseen(v)
  {
  }

  // ----- The buffer updated in place -----

  class ChecksummedBytes {
    var buffer: Bytes
    var start: nat
    var end: nat
    var checksum: Crc

    ghost predicate Valid()
      reads this
    {
      start <= end <= |buffer|
    }

    function Value(): CheckedSlice
      reads this
    {
      CheckedSlice(buffer, start, end, checksum)
    }

    constructor FromInnerData(bytes: Bytes, checksum: Crc)
      ensures Valid() && Value() == Whole(bytes, checksum)
    {
      this.buffer, start, end, this.checksum := bytes, 0, |bytes|, checksum;
    }

    constructor New(bytes: Bytes)
      ensures Valid() && Value() == Whole(bytes, Checksum(bytes))
    {
      buffer, start, end, checksum := bytes, 0, |bytes|, Checksum(bytes);
    }

    /** The empty buffer, which validates. */
    constructor Default()
      ensures Valid() && Value() == Whole([], 0) && Value().Validates()
    {
      buffer, start, end, checksum := [], 0, 0, 0;
      ChecksumEmpty();
    }

    method Validate() returns (r: Integrity)
      ensures r == Validation(Value())
    {
      var actual := Checksum(buffer);
      if checksum != actual {
        return ChecksumMismatch(checksum, actual);
      }
      return Intact;
    }

    /** The bytes in view, handed out only after the whole buffer has validated. */
    method IntoBytes() returns (bytes: Bytes, r: Integrity)
      requires Valid()
      ensures r.Intact? <==> Value().Validates()
      ensures bytes == if r.Intact? then Value().View() else []
    {
      r := Validate();
      bytes := if r.Intact? then buffer[start..end] else [];
    }

    method SplitOff(at: nat) returns (suffix: ChecksummedBytes)
      requires Valid()
      requires at < end - start
      modifies this
      ensures Valid() && suffix.Valid() && fresh(suffix)
      ensures Value() == old(Value()).(end := old(start) + at)
      ensures suffix.Value() == old(Value()).(start := old(start) + at)
      ensures Value().View() + suffix.Value().View() == old(Value().View())
    {
      suffix := new ChecksummedBytes.FromInnerData(buffer, checksum);
      suffix.start, suffix.end := start + at, end;
      end := start + at;
    }

    method Slice(from: nat, to: nat) returns (slice: ChecksummedBytes)
      requires Valid()
      requires from <= to <= end - start
      ensures slice.Valid() && fresh(slice)
      ensures slice.Value() == Value().(start := start + from, end := start + to)
      ensures slice.Value().View() == Value().View()[from..to]
    {
      slice := new ChecksummedBytes.FromInnerData(buffer, checksum);
      slice.start, slice.end := start + from, start + to;
      SliceOfSlice(buffer, start, end, from, to);
    }

    method ShrinkToFit() returns (r: Integrity)
      requires Valid()
      modifies this
      ensures Valid()
      ensures (Value(), r) == Shrunk(old(Value()))
    {
      hide Checksum, Combine;
      if end - start == |buffer| {
        return Intact;
      }
      var bytes := buffer[start..end];
      var exact := Checksum(bytes);
      r := Validate();
      if r.Intact? {
        buffer, start, end, checksum := bytes, 0, |bytes|, exact;
      }
    }

    method Extend(extend: ChecksummedBytes) returns (r: Integrity)
      requires Valid() && extend.Valid() && extend != this
      modifies this, extend
      ensures Valid()
      ensures (Value(), r) == Extended(old(Value()), old(extend.Value()))
    {
      hide Checksum, Combine;
      if extend.start == extend.end {
        r := extend.Validate();
        return;
      }
      if start == end {
        r := Validate();
        if r.Intact? {
          buffer, start, end, checksum := extend.buffer, extend.start, extend.end, extend.checksum;
        }
        return;
      }
      r := ShrinkToFit();
      if !r.Intact? {
        return;
      }
      r := extend.ShrinkToFit();
      if !r.Intact? {
        return;
      }
      checksum := Combine(checksum, extend.checksum, extend.end - extend.start);
      buffer := buffer + extend.buffer;
      start, end := 0, |buffer|;
    }

    /** The view with its exact checksum, which may be wrong if the view is the whole buffer. */
    method IntoInner() returns (bytes: Bytes, crc: Crc, r: Integrity)
      requires Valid()
      modifies this
      ensures r.Intact? ==> bytes == old(Value().View())
      ensures r.Intact? ==> (crc == Checksum(bytes) <==> old(Value().Validates()))
      ensures r.Intact? <==> old(Value().Fits() || Value().Validates())
    {
      hide Checksum, Combine;
      ShrinkKeepsMeaning(Value());
      r := ShrinkToFit();
      bytes, crc := buffer, checksum;
    }
  }
}
