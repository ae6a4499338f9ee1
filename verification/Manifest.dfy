/** The manifest of a bucket: one checksummed entry per object, and a running checksum of them all that the
    writer builds page by page and the reader checks, neither ever holding the entries' bytes together. */
module Manifest {
  import opened ByteStrings
  import opened Crc32c
  import opened ShiftRegister
  import opened Sequences
  import opened Wrappers

  /** An object as a listing returns it. */
  datatype Listed = Listed(key: Bytes, etag: Bytes, size: bv64)

  /** A row of the manifest. */
  datatype CsvEntry = CsvEntry(partialKey: Bytes, etag: Bytes, size: bv64, checksum: Crc)

  /** The eight bytes of a 64-bit number, most significant first. */
  function BigEndian(n: bv64): (r: Bytes)
    ensures |r| == 8
  {
    [((n >> 56) & 0xFF) as bv8, ((n >> 48) & 0xFF) as bv8, ((n >> 40) & 0xFF) as bv8, ((n >> 32) & 0xFF) as bv8,
     ((n >> 24) & 0xFF) as bv8, ((n >> 16) & 0xFF) as bv8, ((n >> 8) & 0xFF) as bv8, (n & 0xFF) as bv8]
  }

  /** The number that eight bytes spell, most significant first. */
  function Spelled(s: Bytes): bv64
    requires |s| == 8
  {
    ((s[0] as bv64) << 56) | ((s[1] as bv64) << 48) | ((s[2] as bv64) << 40) | ((s[3] as bv64) << 32)
    | ((s[4] as bv64) << 24) | ((s[5] as bv64) << 16) | ((s[6] as bv64) << 8) | (s[7] as bv64)
  }

  /** The encoding of sizes loses nothing. */
  lemma SpelledBigEndian(n: bv64)
    ensures Spelled(BigEndian(n)) == n
  {
  }

  /** The most significant byte comes first. */
  lemma BigEndianFirstByteFirst(n: bv64)
    ensures BigEndian(n)[0] as bv64 == n >> 56 && BigEndian(n)[7] as bv64 == n & 0xFF
    ensures BigEndian(0x0102_0304_0506_0708) == [0x01, 0x02, 0x03, 0x04, 0x05, 0x06, 0x07, 0x08]
  {
  }

  /** The bytes an entry stands for: key, etag and 8-byte size. */
  function Fields(e: CsvEntry): Bytes {
    e.partialKey + e.etag + BigEndian(e.size)
  }

  function TotalSize(e: CsvEntry): (n: nat)
    ensures n == |Fields(e)|
  {
    |e.partialKey| + |e.etag| + 8
  }

  function AllFields(entries: seq<CsvEntry>): Bytes {
    if entries == [] then [] else AllFields(entries[..|entries| - 1]) + Fields(entries[|entries| - 1])
  }

  /** The running checksum as writer and reader compute it, entry by entry. */
  function Running(entries: seq<CsvEntry>): Crc {
    if entries == [] then 0
    else
      var last := entries[|entries| - 1];
      Combine(Running(entries[..|entries| - 1]), last.checksum, TotalSize(last))
  }

  ghost predicate Sound(e: CsvEntry) {
    e.checksum == Checksum(Fields(e))
  }

  lemma RunningStep(entries: seq<CsvEntry>, e: CsvEntry)
    ensures Running(entries + [e]) == Combine(Running(entries), e.checksum, TotalSize(e))
    ensures AllFields(entries + [e]) == AllFields(entries) + Fields(e)
  {
    hide Combine, Fields;
    assert (entries + [e])[..|entries|] == entries;
  }

  /** The running checksum of sound entries is the CRC32C of all their bytes laid end to end. */
  lemma {:induction false} RunningIsChecksum(entries: seq<CsvEntry>)
    requires forall i | 0 <= i < |entries| :: Sound(entries[i])
    ensures Running(entries) == Checksum(AllFields(entries))
    decreases |entries|
  {
    hide Combine, Checksum, Fields, Running, AllFields;
    if entries == [] {
      NothingRunning();
      ChecksumEmpty();
    } else {
      var init, last := entries[..|entries| - 1], entries[|entries| - 1];
      RunningIsChecksum(init);
      RunningStep(init, last);
      Snoc(entries);
      CombineExact(AllFields(init), Fields(last));
    }
  }

  lemma NothingRunning()
    ensures Running([]) == 0 && AllFields([]) == []
  {
  }

  /** A wrong checksum in a single row changes the running checksum, however many rows follow. */
  lemma {:induction false} OneWrongRowIsDetected(entries: seq<CsvEntry>, k: nat, wrong: Crc)
    requires k < |entries| && wrong != entries[k].checksum
    ensures Running(entries[k := entries[k].(checksum := wrong)]) != Running(entries)
    decreases |entries|
  {
    hide Combine, Fields, Running;
    var n := |entries| - 1;
    var init, last := entries[..n], entries[n];
    var altered := entries[k := entries[k].(checksum := wrong)];
    Snoc(entries);
    Snoc(altered);
    RunningStep(init, last);
    RunningStep(altered[..n], altered[n]);
    if k == n {
      assert altered[..n] == init;
    } else {
      assert altered[..n] == init[k := init[k].(checksum := wrong)];
      OneWrongRowIsDetected(init, k, wrong);
    }
    if Running(altered) == Running(entries) {
      CombineInjective(Running(init), Running(altered[..n]), last.checksum, altered[n].checksum, TotalSize(last));
    }
  }

  // ----- The hasher -----

  /** `Hasher::update`: the checksum of what came before, carried on over more bytes. */
  function Update(state: Crc, bytes: Bytes): Crc {
    Xor(Run(CRC, Xor(state, ALL_ONES), bytes), ALL_ONES)
  }

  lemma UpdateContinues(before: Bytes, bytes: Bytes)
    ensures Update(Checksum(before), bytes) == Checksum(before + bytes)
  {
    hide Run, Xor;
    RunAppend(CRC, ALL_ONES, before, bytes);
    CrcLawful();
    assert Undoes(CRC.add, Run(CRC, ALL_ONES, before), ALL_ONES);
  }

  method ComputeChecksum(partialKey: Bytes, etag: Bytes, size: bv64) returns (crc: Crc)
    ensures crc == Checksum(partialKey + etag + BigEndian(size))
  {
    hide Update, Checksum, BigEndian;
    var state: Crc := 0;
    ChecksumEmpty();
    Nil(partialKey);
    UpdateContinues([], partialKey);
    state := Update(state, partialKey);
    UpdateContinues(partialKey, etag);
    state := Update(state, etag);
    UpdateContinues(partialKey + etag, BigEndian(size));
    crc := Update(state, BigEndian(size));
  }

  // ----- Writing -----

  const QUOTE: Byte := 0x22

  /** An etag without its quotation marks. */
  function Unquoted(etag: Bytes): Bytes {
    if etag == [] then []
    else if etag[0] == QUOTE then Unquoted(etag[1..])
    else [etag[0]] + Unquoted(etag[1..])
  }

  /** What is left of an etag, in order, is all that is not a quotation mark: that is so of single bytes, and of joined
      texts if it is of their parts. */
  lemma {:induction false} UnquotedJoins(a: Bytes, b: Bytes)
    ensures Unquoted(a + b) == Unquoted(a) + Unquoted(b)
    ensures Unquoted([]) == [] && Unquoted([0x22]) == [] && 0x22 !in Unquoted(a)
    ensures forall c: Byte | c != 0x22 :: Unquoted([c]) == [c]
    decreases |a|
  {
    if a == [] {
      Nil(b);
    } else {
      assert (a + b)[1..] == a[1..] + b;
      UnquotedJoins(a[1..], b);
      Regroup([a[0]], Unquoted(a[1..]), Unquoted(b));
    }
  }

  function EntryOf(o: Listed, prefix: Bytes): CsvEntry
    requires |prefix| <= |o.key|
  {
    var key, etag := o.key[|prefix|..], Unquoted(o.etag);
    CsvEntry(key, etag, o.size, Checksum(key + etag + BigEndian(o.size)))
  }

  ghost predicate UnderPrefix(objects: seq<Listed>, prefix: Bytes) {
    forall i | 0 <= i < |objects| :: |prefix| <= |objects[i].key|
  }

  function EntriesOf(objects: seq<Listed>, prefix: Bytes): seq<CsvEntry>
    requires UnderPrefix(objects, prefix)
  {
    seq(|objects|, i requires 0 <= i < |objects| => EntryOf(objects[i], prefix))
  }

  /** Appends one page of a listing to the manifest. */
  method WriteToManifest(page: seq<Listed>, prefix: Bytes, written: seq<CsvEntry>, running: Crc)
    returns (written': seq<CsvEntry>, running': Crc)
    requires UnderPrefix(page, prefix) && running == Running(written)
    ensures written' == written + EntriesOf(page, prefix) && running' == Running(written')
  {
    hide Combine, Checksum, Running, BigEndian, Unquoted;
    written', running' := written, running;
    for i := 0 to |page|
      invariant written' == written + EntriesOf(page, prefix)[..i] && running' == Running(written')
    {
      var key, etag := page[i].key[|prefix|..], Unquoted(page[i].etag);
      var crc := ComputeChecksum(key, etag, page[i].size);
      var entry := CsvEntry(key, etag, page[i].size, crc);
      RunningStep(written', entry);
      running' := Combine(running', entry.checksum, TotalSize(entry));
      written' := written' + [entry];
      assert EntriesOf(page, prefix)[..i + 1] == EntriesOf(page, prefix)[..i] + [entry];
    }
  }

  function AllObjects(pages: seq<seq<Listed>>): seq<Listed> {
    if pages == [] then [] else AllObjects(pages[..|pages| - 1]) + pages[|pages| - 1]
  }

  /** The checksum of a manifest does not depend on paging: it is the CRC32C of the bytes of all entries, in the
      order of the listing, however the listing was divided into pages. */
  method CreateManifest(pages: seq<seq<Listed>>, prefix: Bytes) returns (entries: seq<CsvEntry>, running: Crc)
    requires UnderPrefix(AllObjects(pages), prefix)
    ensures entries == EntriesOf(AllObjects(pages), prefix)
    ensures forall i | 0 <= i < |entries| ::
              && entries[i].partialKey == AllObjects(pages)[i].key[|prefix|..]
              && entries[i].etag == Unquoted(AllObjects(pages)[i].etag) && entries[i].size == AllObjects(pages)[i].size
              && Sound(entries[i])
    ensures running == Running(entries) == Checksum(AllFields(entries))
  {
    hide Combine, Checksum, Running, AllFields, EntryOf;
    entries, running := [], 0;
    NothingRunning();
    for i := 0 to |pages|
      invariant UnderPrefix(AllObjects(pages[..i]), prefix)
      invariant entries == EntriesOf(AllObjects(pages[..i]), prefix) && running == Running(entries)
    {
      PagesStep(pages, i, prefix);
      entries, running := WriteToManifest(pages[i], prefix, entries, running);
      EntriesOfAppend(AllObjects(pages[..i]), pages[i], prefix);
    }
    assert pages[..|pages|] == pages;
    EntriesAreSound(AllObjects(pages), prefix);
    EntriesCarry(AllObjects(pages), prefix);
    RunningIsChecksum(entries);
  }

  lemma UnderPrefixSplit(a: seq<Listed>, b: seq<Listed>, prefix: Bytes)
    requires UnderPrefix(a + b, prefix)
    ensures UnderPrefix(a, prefix) && UnderPrefix(b, prefix)
  {
    forall i | 0 <= i < |a| ensures |prefix| <= |a[i].key| {
      assert (a + b)[i] == a[i];
    }
    forall i | 0 <= i < |b| ensures |prefix| <= |b[i].key| {
      assert (a + b)[|a| + i] == b[i];
    }
  }

  lemma AllObjectsStep(pages: seq<seq<Listed>>, i: nat)
    requires i < |pages|
    ensures AllObjects(pages[..i + 1]) == AllObjects(pages[..i]) + pages[i]
  {
    assert pages[..i + 1][..i] == pages[..i];
  }

  lemma {:induction false} PagesUnderPrefix(pages: seq<seq<Listed>>, n: nat, prefix: Bytes)
    requires n <= |pages| && UnderPrefix(AllObjects(pages), prefix)
    ensures UnderPrefix(AllObjects(pages[..n]), prefix)
    decreases |pages| - n
  {
    hide AllObjects, UnderPrefix;
    if n == |pages| {
      assert pages[..n] == pages;
    } else {
      PagesUnderPrefix(pages, n + 1, prefix);
      AllObjectsStep(pages, n);
      UnderPrefixSplit(AllObjects(pages[..n]), pages[n], prefix);
    }
  }

  lemma PagesStep(pages: seq<seq<Listed>>, i: nat, prefix: Bytes)
    requires i < |pages| && UnderPrefix(AllObjects(pages), prefix)
    ensures AllObjects(pages[..i + 1]) == AllObjects(pages[..i]) + pages[i]
    ensures UnderPrefix(pages[i], prefix) && UnderPrefix(AllObjects(pages[..i + 1]), prefix)
  {
    hide AllObjects, UnderPrefix;
    AllObjectsStep(pages, i);
    PagesUnderPrefix(pages, i + 1, prefix);
    UnderPrefixSplit(AllObjects(pages[..i]), pages[i], prefix);
  }

  lemma EntriesOfAppend(a: seq<Listed>, b: seq<Listed>, prefix: Bytes)
    requires UnderPrefix(a, prefix) && UnderPrefix(b, prefix)
    ensures UnderPrefix(a + b, prefix) && EntriesOf(a + b, prefix) == EntriesOf(a, prefix) + EntriesOf(b, prefix)
  {
    hide EntryOf;
  }

  lemma EntriesCarry(objects: seq<Listed>, prefix: Bytes)
    requires UnderPrefix(objects, prefix)
    ensures forall i | 0 <= i < |objects| ::
              && EntriesOf(objects, prefix)[i].partialKey == objects[i].key[|prefix|..]
              && EntriesOf(objects, prefix)[i].etag == Unquoted(objects[i].etag)
              && EntriesOf(objects, prefix)[i].size == objects[i].size
  {
    hide Checksum, BigEndian, Unquoted;
  }

  lemma EntriesAreSound(objects: seq<Listed>, prefix: Bytes)
    requires UnderPrefix(objects, prefix)
    ensures forall i | 0 <= i < |objects| :: Sound(EntriesOf(objects, prefix)[i])
  {
    hide Checksum, BigEndian, Unquoted;
  }

  // ----- Reading -----

  /** A row of the file: an entry, or something that cannot be parsed as one. */
  datatype Row = Parsed(entry: CsvEntry) | Malformed

  /** What the validation of an entry's fields makes of it. */
  datatype Kind = File | DirectoryMarker | Invalid

  datatype Item =
    | Entry(entry: CsvEntry)
    | Rejected(kind: Kind)
    | BadRow
    | InvalidFileChecksum(actual: Crc, expected: Crc)

  function ItemOf(row: Row, kind: CsvEntry -> Kind): Item {
    match row
    case Malformed => BadRow
    case Parsed(e) => if kind(e).File? then Entry(e) else Rejected(kind(e))
  }

  function EntriesIn(rows: seq<Row>): seq<CsvEntry> {
    if rows == [] then []
    else
      var init, last := EntriesIn(rows[..|rows| - 1]), rows[|rows| - 1];
      if last.Parsed? then init + [last.entry] else init
  }

  /** The rows of a file as an iterator. The checksum can be compared only when all rows have been handed out. */
  class CsvReader {
    const file: seq<Row>
    const kind: CsvEntry -> Kind
    const expected: Crc
    var position: nat
    var running: Crc
    var done: bool

    /** The running checksum is that of the entries in the rows read so far. */
    ghost predicate Valid()
      reads this
    {
      position <= |file| && running == Running(EntriesIn(file[..position]))
    }

    constructor (file: seq<Row>, kind: CsvEntry -> Kind, expected: Crc)
      ensures Valid() && position == 0 && !done
      ensures this.file == file && this.kind == kind && this.expected == expected
    {
      this.file, this.kind, this.expected := file, kind, expected;
      position, running, done := 0, 0, false;
    }

    /** The next row, or at the end of the file, once, the news that its checksum is wrong. */
    method Next() returns (item: Option<Item>)
      requires Valid()
      modifies this
      ensures Valid()
      ensures old(position) < |file| ==>
                position == old(position) + 1 && done == old(done) && item == Some(ItemOf(file[old(position)], kind))
      ensures old(position) == |file| ==>
                && position == |file| && done == (old(done) || item.Some?)
                && item == if old(done) || Running(EntriesIn(file)) == expected then None
                           else Some(InvalidFileChecksum(Running(EntriesIn(file)), expected))
    {
      hide Combine, Running, TotalSize;
      if position < |file| {
        var row := file[position];
        RowStep(file, position);
        position := position + 1;
        if row.Parsed? {
          running := Combine(running, row.entry.checksum, TotalSize(row.entry));
        }
        return Some(ItemOf(row, kind));
      }
      assert file[..|file|] == file;
      if !done && running != expected {
        done := true;
        return Some(InvalidFileChecksum(running, expected));
      }
      return None;
    }
  }

  lemma RowStep(rows: seq<Row>, n: nat)
    requires n < |rows|
    ensures var entries := EntriesIn(rows[..n]);
            && EntriesIn(rows[..n + 1]) == (if rows[n].Parsed? then entries + [rows[n].entry] else entries)
            && (rows[n].Parsed? ==>
                  Running(EntriesIn(rows[..n + 1])) ==
                  Combine(Running(entries), rows[n].entry.checksum, TotalSize(rows[n].entry)))
  {
    hide Combine, Running, TotalSize;
    assert rows[..n + 1][..n] == rows[..n];
    if rows[n].Parsed? {
      RunningStep(EntriesIn(rows[..n]), rows[n].entry);
    }
  }

  /** The entries of a file that are inserted; directory markers are left out. */
  function Files(entries: seq<CsvEntry>, kind: CsvEntry -> Kind): seq<CsvEntry> {
    if entries == [] then []
    else
      var init, last := Files(entries[..|entries| - 1], kind), entries[|entries| - 1];
      if kind(last).File? then init + [last] else init
  }

  /** Nothing but files is inserted, and every file as often as it occurs. */
  lemma {:induction false} FilesExact(entries: seq<CsvEntry>, kind: CsvEntry -> Kind, e: CsvEntry)
    ensures multiset(Files(entries, kind))[e] == if kind(e) == File then multiset(entries)[e] else 0
    decreases |entries|
  {
    if entries != [] {
      FilesExact(entries[..|entries| - 1], kind, e);
      Snoc(entries);
    }
  }

  ghost predicate Readable(rows: seq<Row>, kind: CsvEntry -> Kind) {
    forall i | 0 <= i < |rows| :: rows[i].Parsed? && !kind(rows[i].entry).Invalid?
  }

  /** The entries to insert from the first `n` rows, if those can all be taken. */
  ghost predicate TakenIn(rows: seq<Row>, n: nat, kind: CsvEntry -> Kind, entries: seq<CsvEntry>)
    requires n <= |rows|
  {
    Readable(rows[..n], kind) && entries == Files(EntriesIn(rows[..n]), kind)
  }

  /** A manifest is taken in exactly when every row can be parsed and is valid or a directory marker, and the running
      checksum of all rows is the expected one; it then consists of the rows that are files, in order. */
  method Ingest(rows: seq<Row>, kind: CsvEntry -> Kind, expected: Crc) returns (inserted: Option<seq<CsvEntry>>)
    ensures inserted.Some? <==> Readable(rows, kind) && Running(EntriesIn(rows)) == expected
    ensures inserted.Some? ==> inserted.value == Files(EntriesIn(rows), kind)
  {
    hide Combine, Running, TakenIn, Readable, Files, EntriesIn;
    var reader := new CsvReader(rows, kind, expected);
    var entries: seq<CsvEntry> := [];
    NothingTakenIn(rows, kind);
    while true
      invariant fresh(reader) && reader.Valid() && reader.file == rows && reader.kind == kind
      invariant reader.expected == expected && !reader.done
      invariant TakenIn(rows, reader.position, kind, entries)
      decreases |rows| - reader.position
    {
      ghost var n := reader.position;
      var item := reader.Next();
      if n < |rows| {
        IngestStep(rows, n, kind, entries);
      } else {
        AllTakenIn(rows, kind, entries);
      }
      match item
      case None => return Some(entries);
      case Some(Rejected(DirectoryMarker)) =>
      case Some(Entry(e)) => entries := entries + [e];
      case Some(_) => return None;
    }
  }

  lemma NothingTakenIn(rows: seq<Row>, kind: CsvEntry -> Kind)
    ensures TakenIn(rows, 0, kind, [])
  {
  }

  lemma AllTakenIn(rows: seq<Row>, kind: CsvEntry -> Kind, entries: seq<CsvEntry>)
    requires TakenIn(rows, |rows|, kind, entries)
    ensures Readable(rows, kind) && entries == Files(EntriesIn(rows), kind)
  {
    assert rows[..|rows|] == rows;
  }

  lemma IngestStep(rows: seq<Row>, n: nat, kind: CsvEntry -> Kind, entries: seq<CsvEntry>)
    requires n < |rows| && TakenIn(rows, n, kind, entries)
    ensures match ItemOf(rows[n], kind)
            case Entry(e) => TakenIn(rows, n + 1, kind, entries + [e])
            case Rejected(DirectoryMarker) => TakenIn(rows, n + 1, kind, entries)
            case _ => !Readable(rows, kind)
  {
    hide Combine, Running, TotalSize;
    RowStep(rows, n);
    assert rows[..n + 1] == rows[..n] + [rows[n]];
    if rows[n].Parsed? {
      var before := EntriesIn(rows[..n]);
      assert (before + [rows[n].entry])[..|before|] == before;
    }
  }

  function RowsOf(entries: seq<CsvEntry>): seq<Row> {
    seq(|entries|, i requires 0 <= i < |entries| => Parsed(entries[i]))
  }

  /** A file written entry by entry reads back as those entries. */
  lemma {:induction false} RowsReadBack(entries: seq<CsvEntry>)
    ensures EntriesIn(RowsOf(entries)) == entries
    decreases |entries|
  {
    if entries != [] {
      var init := entries[..|entries| - 1];
      RowsReadBack(init);
      assert RowsOf(entries)[..|entries| - 1] == RowsOf(init);
      Snoc(entries);
    }
  }

  /** From a listing to the file system and back: a manifest written page by page is taken in whole if its fields are
      valid, and with a wrong checksum in any one row it is not. */
  method RoundTrip(pages: seq<seq<Listed>>, prefix: Bytes, kind: CsvEntry -> Kind, k: nat, wrong: Crc)
    returns (entries: seq<CsvEntry>, inserted: Option<seq<CsvEntry>>, altered: Option<seq<CsvEntry>>)
    requires UnderPrefix(AllObjects(pages), prefix)
    ensures entries == EntriesOf(AllObjects(pages), prefix)
    ensures inserted == if Readable(RowsOf(entries), kind) then Some(Files(entries, kind)) else None
    ensures k < |entries| && wrong != entries[k].checksum ==> altered.None?
  {
    hide Combine, Checksum, Running, Files, EntriesIn, EntriesOf, Readable;
    var running;
    entries, running := CreateManifest(pages, prefix);
    inserted := Ingest(RowsOf(entries), kind, running);
    RowsReadBack(entries);
    var rows := entries;
    if k < |entries| && wrong != entries[k].checksum {
      rows := entries[k := entries[k].(checksum := wrong)];
      OneWrongRowIsDetected(entries, k, wrong);
    }
    altered := Ingest(RowsOf(rows), kind, running);
    RowsReadBack(rows);
  }
}
