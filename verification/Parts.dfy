/** Self-identifying parts of an object, and the labelled bytes they carry.

    Queues of parts are reasoned about as sequences of cells: bytes that know which object and offset they
    claim to come from, and which delivered buffer they were cut from. Cutting a part in two does not change its
    cells.
  */
module Parts {
  import opened ByteStrings
  import opened Crc32c
  import opened ChecksummedBytes
  import opened Pieces
  import opened Sequences
  import opened Wrappers

  datatype ObjectId = ObjectId(key: string, etag: string)

  datatype Cell = Cell(id: ObjectId, offset: nat, byte: Byte, source: Source)

  datatype Part = Part(id: ObjectId, offset: nat, data: CheckedSlice) {
    /** Parts in queues and windows are never empty. */
    ghost predicate Good() {
      data.WellFormed() && data.Len() > 0
    }

    function Len(): nat
      requires data.WellFormed()
    {
      data.Len()
    }

    ghost function Cells(): (cells: seq<Cell>)
      requires data.WellFormed()
      ensures |cells| == Len()
      ensures forall i | 0 <= i < |cells| :: cells[i] == Cell(id, offset + i, data.View()[i], SourceOf(data, offset))
    {
      seq(Len(), i requires 0 <= i < Len() => Cell(id, offset + i, data.View()[i], SourceOf(data, offset)))
    }

    /** The data, given out only to a reader who asks for the right object and offset. */
    function IntoBytes(wanted: ObjectId, at: nat): Option<CheckedSlice> {
      if id != wanted || offset != at then None else Some(data)
    }
  }

  /** The first `at` bytes of a part, and the rest. */
  function SplitOff(p: Part, at: nat): (r: (Part, Part))
    requires p.Good() && at < p.Len()
    ensures r.0.data.WellFormed() && r.1.Good() && r.0.Len() == at
    ensures r.0.Cells() + r.1.Cells() == p.Cells()
  {
    hide Checksum;
    var middle := p.data.start + at;
    var front := p.(data := p.data.(end := middle));
    var back := p.(offset := p.offset + at, data := p.data.(start := middle));
    assert front.Cells() + back.Cells() == p.Cells() by {
      SplitCells(p, at, front, back);
    }
    (front, back)
  }

  lemma CutViews(d: CheckedSlice, at: nat)
    requires d.WellFormed() && at <= d.Len()
    ensures d.(end := d.start + at).View() == d.View()[..at] && d.(start := d.start + at).View() == d.View()[at..]
    ensures |d.View()| == d.Len()
  {
    SliceOfSlice(d.buffer, d.start, d.end, 0, at);
    SliceOfSlice(d.buffer, d.start, d.end, at, d.end - d.start);
  }

  lemma SplitCells(p: Part, at: nat, front: Part, back: Part)
    requires p.data.WellFormed() && at < p.Len()
    requires front == p.(data := p.data.(end := p.data.start + at))
    requires back == p.(offset := p.offset + at, data := p.data.(start := p.data.start + at))
    ensures front.Cells() + back.Cells() == p.Cells()
  {
    hide Checksum, CheckedSlice.View;
    var d := p.data;
    CutViews(d, at);
    assert SourceOf(front.data, front.offset) == SourceOf(d, p.offset) == SourceOf(back.data, back.offset);
    var cells := front.Cells() + back.Cells();
    forall i | 0 <= i < |cells| ensures cells[i] == p.Cells()[i] {
      if i < at {
        assert front.data.View()[i] == d.View()[i];
      } else {
        assert back.data.View()[i - at] == d.View()[i];
      }
    }
  }

  ghost predicate AllGood(parts: seq<Part>) {
    forall i | 0 <= i < |parts| :: parts[i].Good()
  }

  /** The cells of parts laid end to end. */
  ghost function Flat(parts: seq<Part>): seq<Cell>
    requires AllGood(parts)
  {
    if parts == [] then [] else parts[0].Cells() + Flat(parts[1..])
  }

  lemma {:induction false} FlatAppend(a: seq<Part>, b: seq<Part>)
    requires AllGood(a) && AllGood(b)
    ensures AllGood(a + b) && Flat(a + b) == Flat(a) + Flat(b)
    decreases |a|
  {
    hide Checksum, Part.Cells;
    if a == [] {
      Nil(b);
    } else {
      FlatAppend(a[1..], b);
      assert (a + b)[1..] == a[1..] + b;
      Regroup(a[0].Cells(), Flat(a[1..]), Flat(b));
    }
  }

  lemma FlatOne(p: Part)
    requires p.Good()
    ensures AllGood([p]) && Flat([p]) == p.Cells()
  {
    assert [p][1..] == [];
  }

  lemma FlatSnoc(parts: seq<Part>, p: Part)
    requires AllGood(parts) && p.Good()
    ensures AllGood(parts + [p]) && Flat(parts + [p]) == Flat(parts) + p.Cells()
  {
    FlatOne(p);
    FlatAppend(parts, [p]);
  }

  lemma FlatCons(p: Part, parts: seq<Part>)
    requires AllGood(parts) && p.Good()
    ensures AllGood([p] + parts) && Flat([p] + parts) == p.Cells() + Flat(parts)
  {
    assert ([p] + parts)[1..] == parts;
  }

  lemma FlatUncons(parts: seq<Part>)
    requires AllGood(parts) && parts != []
    ensures AllGood(parts[1..]) && Flat(parts) == parts[0].Cells() + Flat(parts[1..])
  {
  }

  lemma FlatUnsnoc(parts: seq<Part>)
    requires AllGood(parts) && parts != []
    ensures var init, last := parts[..|parts| - 1], parts[|parts| - 1];
            AllGood(init) && Flat(parts) == Flat(init) + last.Cells()
  {
    Snoc(parts);
    FlatSnoc(parts[..|parts| - 1], parts[|parts| - 1]);
  }

  lemma FlatNothing()
    ensures Flat([]) == []
  {
  }

  lemma FlatNonEmpty(parts: seq<Part>)
    requires AllGood(parts)
    ensures Flat(parts) != [] <==> parts != []
  {
  }
}
