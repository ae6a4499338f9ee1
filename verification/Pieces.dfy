/** Reads answered by joining pieces of an object, some of which may be corrupt.

    Every piece was cut from a buffer that was delivered with a checksum, and knows where in the object that buffer
    claims to lie. Cutting a piece does not change that, so the buffers delivered determine what can be joined.
  */
module Pieces {
  import opened ByteStrings
  import opened ChecksummedBytes
  import opened Crc32c
  import opened Sequences

  /** A buffer as it was delivered: its bytes, its checksum, and the offset in the object of its first byte. */
  datatype Source = Source(buffer: Bytes, checksum: Crc, base: int) {
    predicate Sound() {
      checksum == Checksum(buffer)
    }
  }

  /** What a piece that lies at `offset` was cut from. */
  function SourceOf(piece: CheckedSlice, offset: nat): Source {
    Source(piece.buffer, piece.checksum, offset - piece.start)
  }

  ghost predicate AllUncorrupted(sources: set<Source>) {
    forall s <- sources :: s.Sound()
  }

  ghost predicate AtMostOneCorrupt(sources: set<Source>) {
    forall s, t | s in sources && t in sources && !s.Sound() && !t.Sound() :: s == t
  }

  /** A piece that covers the object up to `to`, and carries the object's bytes there if it is sound. */
  ghost predicate Covers(piece: CheckedSlice, content: Bytes, to: nat) {
    && piece.WellFormed() && 0 < piece.Len() <= to <= |content|
    && (piece.Validates() ==> piece.View() == content[to - piece.Len()..to])
  }

  /** Pieces laid end to end over a range of the object, each cut from one of the sources. */
  ghost predicate Laid(pieces: seq<CheckedSlice>, content: Bytes, from: nat, to: nat, sources: set<Source>) {
    if pieces == [] then from == to <= |content|
    else
      var last := pieces[|pieces| - 1];
      && Covers(last, content, to) && SourceOf(last, to - last.Len()) in sources
      && Laid(pieces[..|pieces| - 1], content, from, to - last.Len(), sources)
  }

  lemma LaidLast(pieces: seq<CheckedSlice>, content: Bytes, from: nat, to: nat, sources: set<Source>)
    requires pieces != [] && Laid(pieces, content, from, to, sources)
    ensures var init, last := pieces[..|pieces| - 1], pieces[|pieces| - 1];
            && Covers(last, content, to) && last.WellFormed() && 0 < last.Len() <= to <= |content|
            && SourceOf(last, to - last.Len()) in sources
            && Laid(init, content, from, to - last.Len(), sources)
  {
    hide Checksum;
  }

  lemma {:induction false} LaidWellFormed(pieces: seq<CheckedSlice>, content: Bytes, from: nat, to: nat,
                                          sources: set<Source>)
    requires Laid(pieces, content, from, to, sources)
    ensures AllWellFormed(pieces) && from <= to <= |content| && (pieces == [] <==> from == to)
    decreases |pieces|
  {
    hide Covers, SourceOf;
    if pieces != [] {
      LaidLast(pieces, content, from, to, sources);
      var init, last := pieces[..|pieces| - 1], pieces[|pieces| - 1];
      LaidWellFormed(init, content, from, to - last.Len(), sources);
    }
  }

  lemma LaidNext(pieces: seq<CheckedSlice>, piece: CheckedSlice, content: Bytes, from: nat, to: nat,
                 sources: set<Source>)
    requires piece.WellFormed() && piece.Len() <= to && Laid(pieces, content, from, to - piece.Len(), sources)
    requires Covers(piece, content, to) && SourceOf(piece, to - piece.Len()) in sources
    ensures Laid(pieces + [piece], content, from, to, sources)
  {
    hide Covers, SourceOf;
    assert (pieces + [piece])[..|pieces|] == pieces;
  }

  /** A range is answered by joining pieces laid over it. */
  ghost predicate Answers(bytes: CheckedSlice, pieces: seq<CheckedSlice>, content: Bytes, from: nat, to: nat,
                          sources: set<Source>)
  {
    Laid(pieces, content, from, to, sources) && AllWellFormed(pieces) && ExtendedAll(pieces) == (bytes, Intact)
  }

  /** `bytes` are joined from pieces of the sources that lie end to end over the range. */
  ghost predicate Honors(bytes: CheckedSlice, content: Bytes, from: nat, to: nat, sources: set<Source>) {
    exists pieces :: Answers(bytes, pieces, content, from, to, sources)
  }

  /** No two corrupt pieces are joined without being looked at. */
  ghost predicate NoTwoUnseen(pieces: seq<CheckedSlice>)
    requires AllWellFormed(pieces)
  {
    forall i, j | 0 <= i < j < |pieces| :: !(JoinsUnseen(pieces[i]) && JoinsUnseen(pieces[j]))
  }

  ghost predicate AllSound(pieces: seq<CheckedSlice>) {
    forall i | 0 <= i < |pieces| :: pieces[i].Validates()
  }

  // ----- Building an answer -----

  /** The first piece is an answer by itself. */
  lemma FirstPiece(piece: CheckedSlice)
    requires piece.WellFormed() && piece.Len() > 0
    ensures AllWellFormed([piece]) && ExtendedAll([piece]) == (piece, Intact)
    ensures Extended(Whole([], 0), piece) == (piece, Intact)
  {
    hide Checksum, Combine;
    DefaultIsSound();
    assert [piece][..0] == [];
    assert ExtendedAll([]) == (Whole([], 0), Intact);
  }

  lemma NextPiece(pieces: seq<CheckedSlice>, piece: CheckedSlice)
    requires AllWellFormed(pieces) && piece.WellFormed() && ExtendedAll(pieces).1.Intact?
    ensures AllWellFormed(pieces + [piece]) && ExtendedAll(pieces + [piece]) == Extended(ExtendedAll(pieces).0, piece)
  {
    hide Checksum, Combine, Extended, CheckedSlice.Validates;
    assert (pieces + [piece])[..|pieces|] == pieces;
  }

  lemma NoPieces(content: Bytes, at: nat, sources: set<Source>)
    requires at <= |content|
    ensures Answers(Whole([], 0), [], content, at, at, sources)
  {
  }

  lemma ExtendedLength(v: CheckedSlice, w: CheckedSlice)
    requires v.WellFormed() && w.WellFormed()
    ensures Extended(v, w).1.Intact? ==> Extended(v, w).0.Len() == v.Len() + w.Len()
  {
    hide Checksum, Combine;
    ShrinkKeepsMeaning(v);
    ShrinkKeepsMeaning(w);
  }

  lemma ExtendedLast(pieces: seq<CheckedSlice>)
    requires pieces != [] && AllWellFormed(pieces)
    ensures var init, last := pieces[..|pieces| - 1], pieces[|pieces| - 1];
            && AllWellFormed(init) && last.WellFormed()
            && (ExtendedAll(pieces).1.Intact? ==>
                  ExtendedAll(init).1.Intact? && ExtendedAll(pieces) == Extended(ExtendedAll(init).0, last))
  {
    hide Checksum, Combine, Extended;
  }

  lemma NothingExtended()
    ensures ExtendedAll([]).0.Len() == 0
  {
  }

  /** An answer has the length of its range, whatever its pieces hold. */
  lemma {:induction false} AnswerLength(pieces: seq<CheckedSlice>, content: Bytes, from: nat, to: nat,
                                        sources: set<Source>)
    requires Laid(pieces, content, from, to, sources) && AllWellFormed(pieces) && ExtendedAll(pieces).1.Intact?
    ensures from <= to <= |content| && ExtendedAll(pieces).0.Len() == to - from
    decreases |pieces|
  {
    hide Checksum, Combine, Extended, ExtendedAll, AllWellFormed, Covers, Laid, SourceOf;
    LaidWellFormed(pieces, content, from, to, sources);
    if pieces == [] {
      NothingExtended();
    } else {
      var init, last := pieces[..|pieces| - 1], pieces[|pieces| - 1];
      LaidLast(pieces, content, from, to, sources);
      ExtendedLast(pieces);
      AnswerLength(init, content, from, to - last.Len(), sources);
      ExtendedLength(ExtendedAll(init).0, last);
    }
  }

  // ----- When an answer is right -----

  lemma {:induction false} SoundPiecesRead(pieces: seq<CheckedSlice>, content: Bytes, from: nat, to: nat,
                                           sources: set<Source>)
    requires Laid(pieces, content, from, to, sources) && AllWellFormed(pieces) && AllSound(pieces)
    ensures from <= to <= |content| && Views(pieces) == content[from..to]
    decreases |pieces|
  {
    hide Checksum, Laid;
    LaidWellFormed(pieces, content, from, to, sources);
    if pieces != [] {
      var init, last := pieces[..|pieces| - 1], pieces[|pieces| - 1];
      LaidLast(pieces, content, from, to, sources);
      LaidWellFormed(init, content, from, to - last.Len(), sources);
      SoundPiecesRead(init, content, from, to - last.Len(), sources);
      JoinSlices(content, from, to - last.Len(), to);
    }
  }

  /** From sound pieces the answer is the range, and validates. */
  lemma SoundAnswer(bytes: CheckedSlice, pieces: seq<CheckedSlice>, content: Bytes, from: nat, to: nat,
                    sources: set<Source>)
    requires Answers(bytes, pieces, content, from, to, sources) && AllSound(pieces)
    ensures from <= to <= |content| && bytes.WellFormed() && bytes.Validates() && bytes.View() == content[from..to]
  {
    hide Checksum, Combine, Extended, ExtendedAll, Laid, CheckedSlice.Validates;
    SoundPiecesJoin(pieces);
    SoundPiecesRead(pieces, content, from, to, sources);
  }

  /** From any pieces, an answer that validates is the range, unless two corrupt pieces were joined unseen. */
  lemma ValidAnswer(bytes: CheckedSlice, pieces: seq<CheckedSlice>, content: Bytes, from: nat, to: nat,
                    sources: set<Source>)
    requires Answers(bytes, pieces, content, from, to, sources) && bytes.Validates() && NoTwoUnseen(pieces)
    ensures from <= to <= |content| && bytes.WellFormed() && bytes.View() == content[from..to]
  {
    hide Checksum, Combine, Extended, ExtendedAll, Laid, CheckedSlice.Validates, JoinsUnseen;
    ValidJoinIsSound(pieces);
    SoundAnswer(bytes, pieces, content, from, to, sources);
  }

  /** Joining sound pieces does not fail. */
  lemma FailureShowsCorruption(pieces: seq<CheckedSlice>)
    requires AllWellFormed(pieces) && !ExtendedAll(pieces).1.Intact?
    ensures !AllSound(pieces)
  {
    hide Checksum, Combine, Extended, ExtendedAll, CheckedSlice.Validates;
    if AllSound(pieces) {
      SoundPiecesJoin(pieces);
    }
  }

  // ----- What the sources say about the pieces -----

  lemma SourceSound(piece: CheckedSlice, offset: nat)
    ensures SourceOf(piece, offset).Sound() <==> piece.Validates()
  {
    hide Checksum;
  }

  /** A corrupt piece joined unseen is all of its source, so it lies where the source does. */
  lemma UnseenIsWhole(piece: CheckedSlice, offset: nat)
    requires piece.WellFormed() && JoinsUnseen(piece)
    ensures !SourceOf(piece, offset).Sound() && SourceOf(piece, offset).base == offset
  {
    hide Checksum;
  }

  lemma {:induction false} UncorruptedPieces(pieces: seq<CheckedSlice>, content: Bytes, from: nat, to: nat,
                                             sources: set<Source>)
    requires Laid(pieces, content, from, to, sources) && AllUncorrupted(sources)
    ensures AllSound(pieces)
    decreases |pieces|
  {
    hide Laid, Covers, SourceOf, Source.Sound, CheckedSlice.Validates;
    if pieces != [] {
      var init, last := pieces[..|pieces| - 1], pieces[|pieces| - 1];
      LaidLast(pieces, content, from, to, sources);
      SourceSound(last, to - last.Len());
      UncorruptedPieces(init, content, from, to - last.Len(), sources);
    }
  }

  /** Some corrupt source starts before `to`. */
  ghost predicate CorruptBefore(sources: set<Source>, to: nat) {
    exists s :: s in sources && !s.Sound() && s.base < to
  }

  /** Pieces of one corrupt source cannot be joined unseen twice: each would have to lie where the source does. */
  lemma {:induction false} OneCorruptSource(pieces: seq<CheckedSlice>, content: Bytes, from: nat, to: nat,
                                            sources: set<Source>)
    requires Laid(pieces, content, from, to, sources) && AllWellFormed(pieces) && AtMostOneCorrupt(sources)
    ensures NoTwoUnseen(pieces)
    ensures (exists i :: 0 <= i < |pieces| && JoinsUnseen(pieces[i])) ==> CorruptBefore(sources, to)
    decreases |pieces|
  {
    hide Laid, Covers, SourceOf, Source.Sound, JoinsUnseen;
    if pieces != [] {
      var init, last := pieces[..|pieces| - 1], pieces[|pieces| - 1];
      var at := to - last.Len();
      LaidLast(pieces, content, from, to, sources);
      OneCorruptSource(init, content, from, at, sources);
      if CorruptBefore(sources, at) {
        var s :| s in sources && !s.Sound() && s.base < at;
        assert CorruptBefore(sources, to);
        if JoinsUnseen(last) {
          UnseenIsWhole(last, at);
        }
      } else if JoinsUnseen(last) {
        UnseenIsWhole(last, at);
        assert SourceOf(last, at).base < to;
      }
    }
  }

  // ----- What the sources say about an answer -----

  lemma HonorsNothing(content: Bytes, at: nat)
    requires at <= |content|
    ensures Honors(Whole([], 0), content, at, at, {})
  {
    hide Laid, ExtendedAll;
    NoPieces(content, at, {});
  }

  lemma HonorsLength(bytes: CheckedSlice, content: Bytes, from: nat, to: nat, sources: set<Source>)
    requires Honors(bytes, content, from, to, sources)
    ensures from <= to <= |content| && bytes.WellFormed() && bytes.Len() == to - from
  {
    hide Laid, ExtendedAll, AllWellFormed;
    var pieces :| Answers(bytes, pieces, content, from, to, sources);
    AnswerLength(pieces, content, from, to, sources);
  }

  /** From uncorrupted sources an answer validates and is the range. */
  lemma HonorsUncorrupted(bytes: CheckedSlice, content: Bytes, from: nat, to: nat, sources: set<Source>)
    requires Honors(bytes, content, from, to, sources) && AllUncorrupted(sources)
    ensures from <= to <= |content| && bytes.WellFormed() && bytes.Validates() && bytes.View() == content[from..to]
  {
    hide Laid, ExtendedAll, AllWellFormed, CheckedSlice.Validates;
    var pieces :| Answers(bytes, pieces, content, from, to, sources);
    UncorruptedPieces(pieces, content, from, to, sources);
    SoundAnswer(bytes, pieces, content, from, to, sources);
  }

  /** From sources of which at most one is corrupt, an answer that validates is the range. */
  lemma HonorsOneCorrupt(bytes: CheckedSlice, content: Bytes, from: nat, to: nat, sources: set<Source>)
    requires Honors(bytes, content, from, to, sources) && AtMostOneCorrupt(sources) && bytes.Validates()
    ensures from <= to <= |content| && bytes.WellFormed() && bytes.View() == content[from..to]
  {
    hide Laid, ExtendedAll, AllWellFormed, CheckedSlice.Validates, NoTwoUnseen;
    var pieces :| Answers(bytes, pieces, content, from, to, sources);
    OneCorruptSource(pieces, content, from, to, sources);
    ValidAnswer(bytes, pieces, content, from, to, sources);
  }

  /** One corrupt source is the most that can be allowed: over any range of at least two bytes, two of them can make
      any data pass validation. */
  lemma TwoCorruptSourcesCanPass(content: Bytes, from: nat, to: nat, data: Bytes)
    returns (bytes: CheckedSlice, s: Source, t: Source)
    requires from + 2 <= to <= |content| && |data| == to - from
    ensures !s.Sound() && !t.Sound() && Honors(bytes, content, from, to, {s, t})
    ensures bytes.WellFormed() && bytes.Validates() && bytes.View() == data
  {
    hide Checksum, Combine, Extended, Honors, SourceOf, Source.Sound, CheckedSlice.Validates;
    var a, b := data[..1], data[1..];
    var wrong := OtherThan(Checksum(a));
    var v := Whole(a, wrong);
    var w := TwoBadOperandsCanCancel(a, b, wrong);
    SourceSound(v, from);
    SourceSound(w, from + 1);
    WrongSum(a, wrong);
    bytes, s, t := Extended(v, w).0, SourceOf(v, from), SourceOf(w, from + 1);
    TwoPiecesHonor(v, w, content, from, to);
    assert a + b == data;
  }

  lemma OtherThan(c: Crc) returns (d: Crc)
    ensures d != c
  {
    d := if c == 0 then 1 else 0;
  }

  lemma WrongSum(a: Bytes, wrong: Crc)
    requires wrong != Checksum(a)
    ensures !Whole(a, wrong).Validates()
  {
    hide Checksum;
  }

  /** Two corrupt pieces that lie over a range, if they can be joined, answer for it. */
  lemma TwoPiecesHonor(v: CheckedSlice, w: CheckedSlice, content: Bytes, from: nat, to: nat)
    requires v.WellFormed() && w.WellFormed() && v.Len() > 0 && w.Len() > 0 && !v.Validates() && !w.Validates()
    requires from + v.Len() + w.Len() == to <= |content| && Extended(v, w).1.Intact?
    ensures Honors(Extended(v, w).0, content, from, to, {SourceOf(v, from), SourceOf(w, from + v.Len())})
  {
    hide Checksum, Combine, Extended, SourceOf, CheckedSlice.Validates, Laid, ExtendedAll;
    var middle, sources := from + v.Len(), {SourceOf(v, from), SourceOf(w, from + v.Len())};
    NoPieces(content, from, sources);
    LaidNext([], v, content, from, middle, sources);
    assert [] + [v] == [v];
    LaidNext([v], w, content, from, to, sources);
    FirstPiece(v);
    NextPiece([v], w);
    assert Answers(Extended(v, w).0, [v] + [w], content, from, to, sources);
  }
}
