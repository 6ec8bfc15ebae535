/**
 The output layout, stated abstractly: each kept record becomes a header
 line `>name` followed by one unwrapped line of residues. Reading that text
 back gives records whose description is the bare name, which has no `|`,
 so the normaliser cannot be run a second time on its own output.
 */
module TwoLine {
  import opened Results
  import Text
  import Header
  import Residues
  import opened Normalizer
  import Dedup

  const Newline: char := '\n'
  const Marker: char := '>'

  /** The lines of the output: header, residues, header, residues, ... */
  function Lines(records: seq<SeqRecord>): (lines: seq<string>)
    ensures |lines| == 2 * |records|
  {
    if |records| == 0 then []
    else [[Marker] + records[0].name, records[0].residues] + Lines(records[1..])
  }

  /** The output text: every line, the last included, ends with a newline. */
  function Render(records: seq<SeqRecord>): (text: string)
    ensures |text| == 0 <==> |records| == 0
    ensures |records| > 0 ==> text[0] == Marker && text[|text| - 1] == Newline
    ensures |text| >= 3 * |records|
  {
    if |records| == 0 then []
    else [Marker] + records[0].name + [Newline] + records[0].residues + [Newline] + Render(records[1..])
  }

  /** A two-line reader: pairs of a `>` header line and a residue line, then the empty line after the final newline. */
  function ReadLines(lines: seq<string>): Option<seq<RawRecord>> {
    if |lines| == 1 && lines[0] == [] then Some([])
    else if |lines| >= 3 && |lines[0]| >= 1 && lines[0][0] == Marker then
      match ReadLines(lines[2..])
      case None => None
      case Some(rest) => Some([RawRecord(lines[0][1..], lines[1])] + rest)
    else None
  }

  function Read(text: string): Option<seq<RawRecord>> {
    ReadLines(Text.Split(text, Newline))
  }

  /** A record fits on its two lines. */
  predicate OneLine(r: SeqRecord) {
    Newline !in r.name && Newline !in r.residues
  }

  /** What reading the output gives back: the name as description, and the residues. */
  function AsRead(records: seq<SeqRecord>): (raws: seq<RawRecord>)
    ensures |raws| == |records|
  {
    seq(|records|, k requires 0 <= k < |records| => RawRecord(records[k].name, records[k].residues))
  }

  /** The output is the newline-join of its lines, with a final newline. */
  lemma {:induction false} RenderIsJoin(records: seq<SeqRecord>)
    ensures Render(records) == Text.Join(Lines(records) + [[]], Newline)
  {
    if |records| > 0 {
      var r := records[0];
      RenderIsJoin(records[1..]);
      var tail := Lines(records[1..]) + [[]];
      var all := Lines(records) + [[]];
      var header := [Marker] + r.name;
      assert all == [header] + ([r.residues] + tail);
      Text.JoinCons(header, [r.residues] + tail, Newline);
      Text.JoinCons(r.residues, tail, Newline);
      Regroup(header, r.residues, Text.Join(tail, Newline));
    }
  }

  /** The two lines of a record, regrouped around the text that follows them. */
  lemma Regroup(header: string, residues: string, rest: string)
    ensures header + [Newline] + (residues + [Newline] + rest) == header + [Newline] + residues + [Newline] + rest
  {
  }


  /** Reading the lines of one-line records gives them back, name as description. */
  lemma {:induction false} ReadLinesOfLines(records: seq<SeqRecord>)
    ensures ReadLines(Lines(records) + [[]]) == Some(AsRead(records))
  {
    if |records| > 0 {
      var all := Lines(records) + [[]];
      ReadLinesOfLines(records[1..]);
      assert all[2..] == Lines(records[1..]) + [[]];
      assert all[0][1..] == records[0].name;
      assert AsRead(records) == [RawRecord(records[0].name, records[0].residues)] + AsRead(records[1..]);
    }
  }

  /** Round trip: reading the rendered output yields each record's name and residues, in order. */
  lemma RenderReadRoundTrip(records: seq<SeqRecord>)
    requires forall k :: 0 <= k < |records| ==> OneLine(records[k])
    ensures Read(Render(records)) == Some(AsRead(records))
  {
    var lines := Lines(records) + [[]];
    forall i | 0 <= i < |lines|
      ensures Newline !in lines[i]
    {
      LinesAreOneLine(records, i);
    }
    RenderIsJoin(records);
    Text.SplitJoin(lines, Newline);
    ReadLinesOfLines(records);
  }

  lemma {:induction false} LinesAreOneLine(records: seq<SeqRecord>, i: nat)
    requires forall k :: 0 <= k < |records| ==> OneLine(records[k])
    requires i <= 2 * |records|
    ensures Newline !in (Lines(records) + [[]])[i]
  {
    if |records| > 0 && i >= 2 {
      assert (Lines(records) + [[]])[i] == (Lines(records[1..]) + [[]])[i - 2];
      LinesAreOneLine(records[1..], i - 2);
    }
  }

  /**
   Kept records of an input whose lines hold no newline are one-line records
   themselves: names are pieces of descriptions, and normalisation adds no
   newline.
   */
  lemma KeptAreOneLine(records: seq<RawRecord>)
    requires forall i :: 0 <= i < |records| ==> Newline !in records[i].description && Newline !in records[i].residues
    ensures Run(records).Ok? ==> forall k :: 0 <= k < |Run(records).value.kept| ==> OneLine(Run(records).value.kept[k])
  {
    if Run(records).Ok? {
      var kept := Run(records).value.kept;
      KeptCameFromInput(records);
      forall k | 0 <= k < |kept|
        ensures OneLine(kept[k])
      {
        var i :| 0 <= i < |records| && Header.NameField(records[i].description) == Some(kept[k].name)
                 && kept[k].residues == Residues.Clean(records[i].residues);
        Header.NameWithinDescription(records[i].description);
      }
    }
  }

  /** `r` carries the name and the normalised residues of some record of `records`. */
  ghost predicate FromInput(records: seq<RawRecord>, r: SeqRecord) {
    exists i :: 0 <= i < |records| && Header.NameField(records[i].description) == Some(r.name)
                && r.residues == Residues.Clean(records[i].residues)
  }

  /** The record at position `i` witnesses `FromInput`. */
  lemma FromInputAt(records: seq<RawRecord>, i: nat, r: SeqRecord)
    requires i < |records|
    requires Header.NameField(records[i].description) == Some(r.name)
    requires r.residues == Residues.Clean(records[i].residues)
    ensures FromInput(records, r)
  {
  }

  /** Each kept record is built from some input record under that record's name. */
  lemma KeptCameFromInput(records: seq<RawRecord>)
    requires Run(records).Ok?
    ensures forall k :: 0 <= k < |Run(records).value.kept| ==> FromInput(records, Run(records).value.kept[k])
  {
    Dedup.RunMatchesReference(records);
    var kept := Run(records).value.kept;
    var names := Dedup.Names(records);
    var firsts := Dedup.FirstPositions(names);
    forall k | 0 <= k < |kept|
      ensures FromInput(records, kept[k])
    {
      Dedup.NameAt(records, firsts[k]);
      FromInputAt(records, firsts[k], kept[k]);
    }
  }




  /**
   The output cannot be fed back in: as soon as one record was kept, a
   second pass over the output stops at its first record, whose bare-name
   description has no `|` field.
   */
  lemma SecondPassFails(records: seq<RawRecord>)
    requires forall i :: 0 <= i < |records| ==> Newline !in records[i].description && Newline !in records[i].residues
    requires Run(records).Ok? && |Run(records).value.kept| > 0
    ensures var kept := Run(records).value.kept;
      && Read(Render(kept)).Some?
      && Run(Read(Render(kept)).value) == Err(MalformedHeader(0, kept[0].name))
  {
    var kept := Run(records).value.kept;
    KeptAreOneLine(records);
    RenderReadRoundTrip(kept);
    KeptCameFromInput(records);
    var again := AsRead(kept);
    assert again[..1][..0] == [];
    assert Header.NameField(again[0].description).None?;
    assert Run(again[..1]) == Err(MalformedHeader(0, kept[0].name));
    FailurePersists(again, 1);
  }
}
