/** Puts and appends on a bucket, and what a history of them leaves behind.

    The digest algorithms and the etag are parameters: any functions of the bytes.
  */
module ObjectStore {
  import opened ByteStrings
  import opened Sequences
  import opened Wrappers

  type Key = string

  datatype Algorithm = Crc64nvme | Crc32 | Crc32c | Sha1 | Sha256

  datatype Upload = Upload(algorithm: Algorithm, value: nat)

  datatype MockObject = MockObject(bytes: Bytes, etag: nat, checksums: map<Algorithm, nat>)

  /** A single-request upload: of a whole object, or at an offset if it is an append. */
  datatype Put = Put(key: Key, contents: Bytes, offset: Option<nat>, ifMatch: Option<nat>, checksum: Option<Upload>)

  datatype Outcome =
    | Stored(etag: nat)
    | NoSuchKey
    | PreconditionFailed
    | EmptyBody
    | InvalidWriteOffset
    | InvalidChecksumType
    | BadChecksum

  datatype Hashes = Hashes(digest: (Algorithm, Bytes) -> nat, etag: Bytes -> nat) {
    /** `validate_checksum`: a provided checksum must be that of the contents. */
    predicate Accepts(contents: Bytes, checksum: Option<Upload>) {
      checksum.None? || checksum.value.value == digest(checksum.value.algorithm, contents)
    }

    function Fresh(contents: Bytes, checksum: Option<Upload>): MockObject {
      MockObject(contents, etag(contents),
                 if checksum.None? then map[] else map[checksum.value.algorithm := checksum.value.value])
    }

    /** `MockObject::append`: the whole content is compacted and checksummed again. */
    function Appended(o: MockObject, contents: Bytes): MockObject {
      var bytes := o.bytes + contents;
      MockObject(bytes, etag(bytes), map a | a in o.checksums :: digest(a, bytes))
    }
  }

  type Objects = map<Key, MockObject>

  /** Why a request is refused, if it is. */
  function Refusal(h: Hashes, objects: Objects, p: Put): Option<Outcome> {
    if p.offset.None? then
      if h.Accepts(p.contents, p.checksum) then None else Some(BadChecksum)
    else if p.key !in objects then
      if p.offset.value != 0 then Some(NoSuchKey)
      else if p.ifMatch.Some? then Some(PreconditionFailed)
      else if !h.Accepts(p.contents, p.checksum) then Some(BadChecksum)
      else None
    else
      var o := objects[p.key];
      if p.ifMatch.Some? && p.ifMatch.value != o.etag then Some(PreconditionFailed)
      else if p.contents == [] && o.bytes != [] then Some(EmptyBody)
      else if |o.bytes| != p.offset.value then Some(InvalidWriteOffset)
      else if !(if p.checksum.Some? then p.checksum.value.algorithm in o.checksums else o.checksums == map[]) then
        Some(InvalidChecksumType)
      else if !h.Accepts(p.contents, p.checksum) then Some(BadChecksum)
      else None
  }

  /** The object an accepted request leaves under its key. */
  function Result(h: Hashes, objects: Objects, p: Put): MockObject {
    if p.offset.Some? && p.key in objects then h.Appended(objects[p.key], p.contents)
    else h.Fresh(p.contents, p.checksum)
  }

  class MockClient {
    const h: Hashes
    var objects: Objects

    constructor (h: Hashes)
      ensures objects == map[] && this.h == h
    {
      this.h, objects := h, map[];
    }

    /** A refused request changes nothing; an accepted one changes its own key only. */
    method PutObject(p: Put) returns (outcome: Outcome)
      modifies this
      ensures outcome.Stored? <==> Refusal(h, old(objects), p).None?
      ensures !outcome.Stored? ==> objects == old(objects) && Refusal(h, old(objects), p) == Some(outcome)
      ensures outcome.Stored? ==> objects == old(objects)[p.key := Result(h, old(objects), p)]
                                  && outcome.etag == objects[p.key].etag
    {
      if p.offset.Some? {
        outcome := AppendObject(p.key, p.offset.value, p);
        return;
      }
      if !h.Accepts(p.contents, p.checksum) {
        return BadChecksum;
      }
      var o := h.Fresh(p.contents, p.checksum);
      objects := objects[p.key := o];
      outcome := Stored(o.etag);
    }

    method AppendObject(key: Key, offset: nat, p: Put) returns (outcome: Outcome)
      requires p.key == key && p.offset == Some(offset)
      modifies this
      ensures outcome.Stored? <==> Refusal(h, old(objects), p).None?
      ensures !outcome.Stored? ==> objects == old(objects) && Refusal(h, old(objects), p) == Some(outcome)
      ensures outcome.Stored? ==> objects == old(objects)[key := Result(h, old(objects), p)]
                                  && outcome.etag == objects[key].etag
    {
      if key !in objects {
        if offset != 0 {
          return NoSuchKey;
        }
        if p.ifMatch.Some? {
          return PreconditionFailed;
        }
        if !h.Accepts(p.contents, p.checksum) {
          return BadChecksum;
        }
        objects := objects[key := h.Fresh(p.contents, p.checksum)];
        return Stored(objects[key].etag);
      }
      var o := objects[key];
      if p.ifMatch.Some? && o.etag != p.ifMatch.value {
        return PreconditionFailed;
      }
      if p.contents == [] && o.bytes != [] {
        return EmptyBody;
      }
      if |o.bytes| != offset {
        return InvalidWriteOffset;
      }
      var matches := if p.checksum.Some? then p.checksum.value.algorithm in o.checksums else o.checksums == map[];
      if !matches {
        return InvalidChecksumType;
      }
      if !h.Accepts(p.contents, p.checksum) {
        return BadChecksum;
      }
      objects := objects[key := h.Appended(o, p.contents)];
      outcome := Stored(objects[key].etag);
    }
  }

  // ----- Histories -----

  /** A history: requests, and which of them were accepted. */
  datatype Log = Log(puts: seq<Put>, accepted: seq<bool>) {
    ghost predicate WellFormed() {
      |puts| == |accepted|
    }

    function Before(n: nat): (log: Log)
      requires WellFormed() && n <= |puts|
      ensures log.WellFormed()
    {
      Log(puts[..n], accepted[..n])
    }

    function Then(p: Put, ok: bool): Log {
      Log(puts + [p], accepted + [ok])
    }

    predicate Changed(i: nat, key: Key)
      requires WellFormed()
    {
      i < |puts| && accepted[i] && puts[i].key == key
    }
  }

  const NO_LOG := Log([], [])

  ghost predicate Touched(log: Log, key: Key)
    requires log.WellFormed()
  {
    exists i :: log.Changed(i, key)
  }

  /** Position of the last accepted whole put on a key, or 0. */
  function LastWhole(log: Log, key: Key): (n: nat)
    requires log.WellFormed()
    ensures n <= |log.puts|
    decreases |log.puts|
  {
    if log.puts == [] then 0
    else
      var n := |log.puts| - 1;
      if log.Changed(n, key) && log.puts[n].offset.None? then n else LastWhole(log.Before(n), key)
  }

  /** The contents of the accepted requests on a key from position `from` on, one after another. */
  function Contents(log: Log, key: Key, from: nat): Bytes
    requires log.WellFormed()
    decreases |log.puts|
  {
    if |log.puts| <= from then []
    else
      var n := |log.puts| - 1;
      var before := Contents(log.Before(n), key, from);
      if log.Changed(n, key) then before + log.puts[n].contents else before
  }

  /** The last whole put on a key followed by the appends accepted since. */
  function Accumulated(log: Log, key: Key): Bytes
    requires log.WellFormed()
  {
    Contents(log, key, LastWhole(log, key))
  }

  function AlgorithmOf(p: Put): Option<Algorithm> {
    if p.checksum.None? then None else Some(p.checksum.value.algorithm)
  }

  /** The checksum algorithm of the last accepted request on a key. */
  function LastAlgorithm(log: Log, key: Key): Option<Algorithm>
    requires log.WellFormed()
    decreases |log.puts|
  {
    if log.puts == [] then None
    else
      var n := |log.puts| - 1;
      if log.Changed(n, key) then AlgorithmOf(log.puts[n]) else LastAlgorithm(log.Before(n), key)
  }

  /** What a history leaves under a key: nothing if no request on it was accepted, and otherwise the bytes
      accumulated, with their etag and their checksum by the algorithm last used. */
  ghost predicate Explains(h: Hashes, objects: Objects, log: Log, key: Key)
    requires log.WellFormed()
  {
    && (key in objects <==> Touched(log, key))
    && (key in objects ==> IsObject(h, objects[key], Accumulated(log, key), LastAlgorithm(log, key)))
  }

  ghost predicate IsObject(h: Hashes, o: MockObject, bytes: Bytes, algorithm: Option<Algorithm>) {
    && o.bytes == bytes && o.etag == h.etag(bytes)
    && o.checksums == if algorithm.None? then map[] else map[algorithm.value := h.digest(algorithm.value, bytes)]
  }

  /** A provided checksum is that of the contents. */
  ghost predicate ChecksumRight(h: Hashes, p: Put) {
    p.checksum.Some? ==> p.checksum.value.value == h.digest(p.checksum.value.algorithm, p.contents)
  }

  /** What a request must satisfy to be accepted, by the history before it: its checksum is right, and an append
      starts where the bytes accumulated so far end, with their etag if it names one, and if there is an object does
      not append nothing to something and goes on with the same checksum algorithm. */
  ghost predicate Acceptable(h: Hashes, log: Log, p: Put)
    requires log.WellFormed()
  {
    && ChecksumRight(h, p)
    && (p.offset.Some? ==>
          var bytes := Accumulated(log, p.key);
          && p.offset.value == |bytes|
          && (p.ifMatch.Some? ==> Touched(log, p.key) && p.ifMatch.value == h.etag(bytes))
          && (Touched(log, p.key) ==>
                (p.contents != [] || bytes == []) && AlgorithmOf(p) == LastAlgorithm(log, p.key)))
  }

  /** An append to an object that is there, and names its etag if it names one. */
  ghost predicate Reaches(h: Hashes, log: Log, p: Put)
    requires log.WellFormed()
  {
    && p.offset.Some? && Touched(log, p.key)
    && (p.ifMatch.Some? ==> p.ifMatch.value == h.etag(Accumulated(log, p.key)))
  }

  ghost predicate AppendsNothing(log: Log, p: Put)
    requires log.WellFormed()
  {
    p.contents == [] && Accumulated(log, p.key) != []
  }

  /** The answer due to a request, by the history before it alone. */
  ghost predicate Due(h: Hashes, log: Log, p: Put, outcome: Outcome)
    requires log.WellFormed()
  {
    var bytes, there := Accumulated(log, p.key), Touched(log, p.key);
    match outcome
    case Stored(etag) =>
      Acceptable(h, log, p) && etag == h.etag(if p.offset.None? then p.contents else bytes + p.contents)
    case NoSuchKey => p.offset.Some? && !there && p.offset.value != 0
    case PreconditionFailed =>
      p.offset.Some? && p.ifMatch.Some? && if there then p.ifMatch.value != h.etag(bytes) else p.offset.value == 0
    case EmptyBody => Reaches(h, log, p) && AppendsNothing(log, p)
    case InvalidWriteOffset => Reaches(h, log, p) && !AppendsNothing(log, p) && p.offset.value != |bytes|
    case InvalidChecksumType =>
      && Reaches(h, log, p) && !AppendsNothing(log, p) && p.offset.value == |bytes|
      && AlgorithmOf(p) != LastAlgorithm(log, p.key)
    case BadChecksum =>
      && !ChecksumRight(h, p)
      && (|| p.offset.None?
          || (!there && p.offset.value == 0 && p.ifMatch.None?)
          || (Reaches(h, log, p) && !AppendsNothing(log, p) && p.offset.value == |bytes|
              && AlgorithmOf(p) == LastAlgorithm(log, p.key)))
  }

  /** One answer is due to every request, and only one. */
  lemma DueIsUnique(h: Hashes, log: Log, p: Put, a: Outcome, b: Outcome)
    requires log.WellFormed() && Due(h, log, p, a) && Due(h, log, p, b)
    ensures a == b
  {
    hide LastWhole, Contents, LastAlgorithm, Touched, Accumulated, ChecksumRight;
    if !Touched(log, p.key) {
      AccumulatedNothing(log, p.key);
    }
  }

  // ----- One more request -----

  lemma BeforeThen(log: Log, p: Put, ok: bool)
    requires log.WellFormed()
    ensures log.Then(p, ok).WellFormed() && log.Then(p, ok).Before(|log.puts|) == log
  {
    assert (log.puts + [p])[..|log.puts|] == log.puts && (log.accepted + [ok])[..|log.puts|] == log.accepted;
  }

  lemma TouchedThen(log: Log, p: Put, ok: bool, key: Key)
    requires log.WellFormed()
    ensures Touched(log.Then(p, ok), key) <==> Touched(log, key) || (ok && p.key == key)
  {
    var log' := log.Then(p, ok);
    forall i: nat | i < |log.puts| ensures log'.Changed(i, key) <==> log.Changed(i, key) {
    }
    if Touched(log, key) {
      var i :| log.Changed(i, key);
      assert log'.Changed(i, key);
    }
    if ok && p.key == key {
      assert log'.Changed(|log.puts|, key);
    }
  }

  lemma {:induction false} NothingAccumulated(log: Log, key: Key)
    requires log.WellFormed() && !Touched(log, key)
    ensures LastWhole(log, key) == 0 && Contents(log, key, 0) == []
    decreases |log.puts|
  {
    if log.puts != [] {
      var n := |log.puts| - 1;
      UntouchedBefore(log, key, n);
      NothingAccumulated(log.Before(n), key);
    }
  }

  lemma UntouchedBefore(log: Log, key: Key, n: nat)
    requires log.WellFormed() && n < |log.puts| && !Touched(log, key)
    ensures !log.Changed(n, key) && !Touched(log.Before(n), key)
  {
    forall i: nat ensures log.Before(n).Changed(i, key) ==> log.Changed(i, key) {
    }
  }

  lemma LastWholeThen(log: Log, p: Put, ok: bool, key: Key)
    requires log.WellFormed()
    ensures LastWhole(log.Then(p, ok), key) ==
            if ok && p.key == key && p.offset.None? then |log.puts| else LastWhole(log, key)
    ensures LastAlgorithm(log.Then(p, ok), key) ==
            if ok && p.key == key then AlgorithmOf(p) else LastAlgorithm(log, key)
  {
    BeforeThen(log, p, ok);
  }

  lemma ContentsThen(log: Log, p: Put, ok: bool, key: Key, from: nat)
    requires log.WellFormed() && from <= |log.puts|
    ensures Contents(log.Then(p, ok), key, from) ==
            if ok && p.key == key then Contents(log, key, from) + p.contents else Contents(log, key, from)
    ensures Contents(log, key, |log.puts|) == []
  {
    BeforeThen(log, p, ok);
  }

  lemma AccumulatedThen(log: Log, p: Put, ok: bool, key: Key)
    requires log.WellFormed()
    ensures Accumulated(log.Then(p, ok), key) ==
            if !ok || p.key != key then Accumulated(log, key)
            else if p.offset.None? then p.contents
            else Accumulated(log, key) + p.contents
  {
    hide LastWhole, Contents;
    LastWholeThen(log, p, ok, key);
    ContentsThen(log, p, ok, key, LastWhole(log, key));
    ContentsThen(log, p, ok, key, |log.puts|);
    Nil(p.contents);
  }

  /** A request is refused exactly when the history says so. */
  lemma AcceptedIff(h: Hashes, objects: Objects, log: Log, p: Put)
    requires log.WellFormed() && Explains(h, objects, log, p.key)
    ensures Refusal(h, objects, p).None? <==> Acceptable(h, log, p)
  {
    hide LastWhole, Contents, LastAlgorithm, Touched;
    if p.key !in objects {
      NothingAccumulated(log, p.key);
    } else if p.offset.Some? {
      var o := objects[p.key];
      SameAlgorithm(h, o, Accumulated(log, p.key), LastAlgorithm(log, p.key), p);
    }
  }

  /** The answer given is the one due. */
  lemma AnswerIsDue(h: Hashes, objects: Objects, log: Log, p: Put, outcome: Outcome)
    requires log.WellFormed() && Explains(h, objects, log, p.key)
    requires match Refusal(h, objects, p)
             case Some(refusal) => outcome == refusal
             case None => outcome == Stored(Result(h, objects, p).etag)
    ensures Due(h, log, p, outcome)
  {
    hide LastWhole, Contents, LastAlgorithm, Touched, Accumulated;
    AcceptedIff(h, objects, log, p);
    if p.key !in objects {
      AccumulatedNothing(log, p.key);
      Nil(p.contents);
    } else if p.offset.Some? {
      SameAlgorithm(h, objects[p.key], Accumulated(log, p.key), LastAlgorithm(log, p.key), p);
    }
  }

  lemma SameAlgorithm(h: Hashes, o: MockObject, bytes: Bytes, algorithm: Option<Algorithm>, p: Put)
    requires IsObject(h, o, bytes, algorithm)
    ensures AlgorithmOf(p) == algorithm <==>
            if p.checksum.Some? then p.checksum.value.algorithm in o.checksums else o.checksums == map[]
  {
    if algorithm.Some? {
      assert algorithm.value in o.checksums;
    }
  }

  /** The object an accepted request leaves is the one its history explains. */
  lemma ResultIsObject(h: Hashes, objects: Objects, log: Log, p: Put)
    requires log.WellFormed() && Explains(h, objects, log, p.key) && Acceptable(h, log, p)
    ensures IsObject(h, Result(h, objects, p), Accumulated(log.Then(p, true), p.key), AlgorithmOf(p))
  {
    hide LastWhole, Contents, LastAlgorithm, Touched, Accumulated;
    AccumulatedThen(log, p, true, p.key);
    if p.key !in objects {
      AccumulatedNothing(log, p.key);
      Nil(p.contents);
    }
  }

  lemma AccumulatedNothing(log: Log, key: Key)
    requires log.WellFormed() && !Touched(log, key)
    ensures Accumulated(log, key) == []
  {
    NothingAccumulated(log, key);
  }

  /** One request keeps the explanation of every key. */
  lemma StepExplained(h: Hashes, objects: Objects, log: Log, p: Put, key: Key)
    requires log.WellFormed() && Explains(h, objects, log, p.key) && Explains(h, objects, log, key)
    ensures var ok := Acceptable(h, log, p);
            && log.Then(p, ok).WellFormed()
            && Explains(h, if ok then objects[p.key := Result(h, objects, p)] else objects, log.Then(p, ok), key)
  {
    hide LastWhole, Contents, LastAlgorithm, Touched, Accumulated, Acceptable, Result;
    var ok := Acceptable(h, log, p);
    TouchedThen(log, p, ok, key);
    LastWholeThen(log, p, ok, key);
    AccumulatedThen(log, p, ok, key);
    if ok {
      ResultIsObject(h, objects, log, p);
    }
  }

  function Accepted(outcomes: seq<Outcome>): (accepted: seq<bool>)
    ensures |accepted| == |outcomes|
  {
    seq(|outcomes|, i requires 0 <= i < |outcomes| => outcomes[i].Stored?)
  }

  /** After every history: each request got the answer due to it after those before it, and what is stored under every
      key is explained. */
  method History(h: Hashes, puts: seq<Put>) returns (objects: Objects, outcomes: seq<Outcome>)
    ensures |outcomes| == |puts|
    ensures forall n | 0 <= n < |puts| :: Due(h, Log(puts, Accepted(outcomes)).Before(n), puts[n], outcomes[n])
    ensures forall key :: Explains(h, objects, Log(puts, Accepted(outcomes)), key)
  {
    hide Touched, LastWhole, Contents, LastAlgorithm, Explains, Acceptable, Refusal, Result, Due;
    var client := new MockClient(h);
    outcomes := [];
    ghost var log := NO_LOG;
    NothingExplained(h);
    for n := 0 to |puts|
      invariant fresh(client) && client.h == h && |outcomes| == n
      invariant log == Log(puts[..n], Accepted(outcomes)) && log.WellFormed()
      invariant forall i | 0 <= i < n :: Due(h, log.Before(i), puts[i], outcomes[i])
      invariant forall key :: Explains(h, client.objects, log, key)
    {
      ghost var objects := client.objects;
      var outcome := client.PutObject(puts[n]);
      AcceptedIff(h, objects, log, puts[n]);
      AnswerIsDue(h, objects, log, puts[n], outcome);
      forall key ensures Explains(h, client.objects, log.Then(puts[n], outcome.Stored?), key) {
        StepExplained(h, objects, log, puts[n], key);
      }
      BeforeStays(log, puts[n], outcome.Stored?);
      assert puts[..n + 1] == puts[..n] + [puts[n]];
      assert Accepted(outcomes + [outcome]) == Accepted(outcomes) + [outcome.Stored?];
      outcomes := outcomes + [outcome];
      log := log.Then(puts[n], outcome.Stored?);
    }
    assert puts[..|puts|] == puts;
    objects := client.objects;
  }

  lemma BeforeStays(log: Log, p: Put, ok: bool)
    requires log.WellFormed()
    ensures log.Then(p, ok).WellFormed()
    ensures forall i | 0 <= i < |log.puts| :: log.Then(p, ok).Before(i) == log.Before(i)
    ensures log.Then(p, ok).Before(|log.puts|) == log
  {
    BeforeThen(log, p, ok);
    forall i | 0 <= i < |log.puts| ensures log.Then(p, ok).Before(i) == log.Before(i) {
      assert (log.puts + [p])[..i] == log.puts[..i] && (log.accepted + [ok])[..i] == log.accepted[..i];
    }
  }

  lemma NothingExplained(h: Hashes)
    ensures forall key :: Explains(h, map[], NO_LOG, key)
  {
  }
}
