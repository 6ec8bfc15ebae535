/**
 The deduplicating normaliser: one forward pass over the germline records
 that keeps the first record seen under each canonical name, normalises its
 residues, and reports every later record with an already-seen name.
 */
module Normalizer {
  import opened Results
  import Header
  import Residues

  /** A record as read from the input FASTA file. */
  datatype RawRecord = RawRecord(description: string, residues: string)

  /** A Biopython `SeqRecord` built by the normaliser. */
  datatype SeqRecord = SeqRecord(id: string, name: string, description: string, residues: string)

  /**
   The report for a dropped record: its name, its own description and the
   description of the record that first claimed the name.
   */
  datatype Duplicate = Duplicate(name: string, description: string, original: string)

  /**
   Why a pass aborts: a description with no second `|` field (an `IndexError`
   at the record's zero-based position), or an empty original-description
   lookup (an `IndexError` on `[...][0]`).
   */
  datatype Failure = MalformedHeader(position: nat, description: string) | NoOriginal(name: string)

  /**
   The loop's variables: `name_set`, `seq_list`, `seq_list_desc`, and the
   duplicate reports that the source prints.
   */
  datatype State = State(seen: set<string>, kept: seq<SeqRecord>, traced: seq<SeqRecord>, duplicates: seq<Duplicate>)

  const Start: State := State({}, [], [], [])

  /** The record written to the output: the name stands for id, name and description. */
  function Primary(name: string, raw: RawRecord): SeqRecord {
    SeqRecord(name, name, name, Residues.Clean(raw.residues))
  }

  /** The parallel record that remembers the original description. */
  function Trace(name: string, raw: RawRecord): SeqRecord {
    SeqRecord(name, name, raw.description, Residues.Clean(raw.residues))
  }

  /** The names of a list of records, as a set. */
  function NamesOf(records: seq<SeqRecord>): set<string> {
    set k | 0 <= k < |records| :: records[k].name
  }

  /** `[seq.description for seq in traced if seq.name == name]`. */
  function Matching(traced: seq<SeqRecord>, name: string): (ds: seq<string>)
    ensures |ds| <= |traced|
    ensures |ds| == 0 <==> forall k :: 0 <= k < |traced| ==> traced[k].name != name
    ensures forall k :: 0 <= k < |traced| && traced[k].name == name && (forall j :: 0 <= j < k ==> traced[j].name != name)
                        ==> |ds| > 0 && ds[0] == traced[k].description
  {
    if |traced| == 0 then []
    else
      var rest := Matching(traced[1..], name);
      assert forall k :: 1 <= k < |traced| ==> traced[1..][k - 1] == traced[k];
      (if traced[0].name == name then [traced[0].description] else []) + rest
  }

  /** The `[0]` of that comprehension: `None` where Python raises `IndexError`. */
  function OriginalDescription(traced: seq<SeqRecord>, name: string): (d: Option<string>)
    ensures d.None? <==> forall k :: 0 <= k < |traced| ==> traced[k].name != name
    ensures forall k :: 0 <= k < |traced| && traced[k].name == name && (forall j :: 0 <= j < k ==> traced[j].name != name)
                        ==> d == Some(traced[k].description)
  {
    var ds := Matching(traced, name);
    if |ds| > 0 then Some(ds[0]) else None
  }

  /**
   One iteration of the loop body, for the record at zero-based `position`.
   It adds one entry in total to the kept list and the reports, and the name
   read from the header joins the seen set.
   */
  function Step(st: State, raw: RawRecord, position: nat): (r: Result<State, Failure>)
    ensures r.Err? && r.error.MalformedHeader? ==> r.error == MalformedHeader(position, raw.description)
    ensures r.Ok? ==> Header.NameField(raw.description).Some?
                      && r.value.seen == st.seen + {Header.NameField(raw.description).value}
    ensures r.Ok? ==> |r.value.kept| + |r.value.duplicates| == |st.kept| + |st.duplicates| + 1
  {
    match Header.NameField(raw.description)
    case None => Err(MalformedHeader(position, raw.description))
    case Some(name) =>
      if name !in st.seen then
        Ok(State(st.seen + {name}, st.kept + [Primary(name, raw)], st.traced + [Trace(name, raw)], st.duplicates))
      else
        match OriginalDescription(st.traced, name)
        case None => Err(NoOriginal(name))
        case Some(original) => Ok(st.(duplicates := st.duplicates + [Duplicate(name, raw.description, original)]))
  }

  /** A step only appends: what the lists and the reports held before stays in front. */
  lemma StepOnlyAppends(st: State, raw: RawRecord, position: nat)
    ensures var r := Step(st, raw, position);
      r.Ok? ==> st.kept <= r.value.kept && st.traced <= r.value.traced && st.duplicates <= r.value.duplicates
  {
  }

  /**
   The whole pass over `records`, in input order; the first failure aborts it.
   A finished pass accounts for every record once, as kept or as reported.
   */
  function Run(records: seq<RawRecord>): (r: Result<State, Failure>)
    ensures r.Ok? ==> |r.value.kept| + |r.value.duplicates| == |records|
    decreases |records|
  {
    if |records| == 0 then Ok(Start)
    else
      match Run(records[..|records| - 1])
      case Err(e) => Err(e)
      case Ok(st) => Step(st, records[|records| - 1], |records| - 1)
  }

  /**
   The loop invariant: the two lists are parallel and agree on names and
   residues, the seen set is exactly their set of names, and no name is
   kept twice.
   */
  ghost predicate Consistent(st: State) {
    && |st.kept| == |st.traced|
    && (forall k :: 0 <= k < |st.kept| ==>
          && st.kept[k].id == st.kept[k].name
          && st.kept[k].description == st.kept[k].name
          && st.traced[k].id == st.kept[k].name
          && st.traced[k].name == st.kept[k].name
          && st.traced[k].residues == st.kept[k].residues)
    && st.seen == NamesOf(st.kept)
    && (forall k, l :: 0 <= k < l < |st.kept| ==> st.kept[k].name != st.kept[l].name)
  }

  lemma NamesOfAppend(records: seq<SeqRecord>, r: SeqRecord)
    ensures NamesOf(records + [r]) == NamesOf(records) + {r.name}
  {
    var both := records + [r];
    assert both[|records|] == r;
    forall n | n in NamesOf(both) ensures n in NamesOf(records) + {r.name} {
      var k :| 0 <= k < |both| && both[k].name == n;
      if k < |records| {
        assert both[k] == records[k];
      }
    }
    forall n | n in NamesOf(records) ensures n in NamesOf(both) {
      var k :| 0 <= k < |records| && records[k].name == n;
      assert both[k] == records[k];
    }
  }

  /**
   One step keeps the invariant, and under it the step fails only on a
   malformed header: the original-description lookup always succeeds.
   */
  lemma StepKeepsConsistent(st: State, raw: RawRecord, position: nat)
    requires Consistent(st)
    ensures Step(st, raw, position).Err? <==> Header.NameField(raw.description).None?
    ensures Step(st, raw, position).Ok? ==> Consistent(Step(st, raw, position).value)
  {
    match Header.NameField(raw.description)
    case None =>
    case Some(name) =>
      if name !in st.seen {
        var st' := Step(st, raw, position).value;
        assert st'.kept == st.kept + [Primary(name, raw)];
        NamesOfAppend(st.kept, Primary(name, raw));
      } else {
        var k :| 0 <= k < |st.kept| && st.kept[k].name == name;
        assert st.traced[k].name == name;
      }
  }

  /**
   A record whose name is already seen leaves the set and both lists alone
   and adds one report naming the description of the record that first
   claimed the name.
   */
  lemma StepOnDuplicate(st: State, raw: RawRecord, position: nat, name: string, k: nat)
    requires Consistent(st)
    requires Header.NameField(raw.description) == Some(name)
    requires k < |st.kept| && st.kept[k].name == name
    ensures Step(st, raw, position).Ok?
    ensures var st' := Step(st, raw, position).value;
      && st'.seen == st.seen && st'.kept == st.kept && st'.traced == st.traced
      && st'.duplicates == st.duplicates + [Duplicate(name, raw.description, st.traced[k].description)]
  {
    assert forall j :: 0 <= j < k ==> st.traced[j].name != name;
  }

  /** A record with a new name is appended, in both views, at the end of the lists. */
  lemma StepOnNewName(st: State, raw: RawRecord, position: nat, name: string)
    requires Header.NameField(raw.description) == Some(name)
    requires name !in st.seen
    ensures Step(st, raw, position) == Ok(State(st.seen + {name},
                                                 st.kept + [SeqRecord(name, name, name, Residues.Clean(raw.residues))],
                                                 st.traced + [SeqRecord(name, name, raw.description, Residues.Clean(raw.residues))],
                                                 st.duplicates))
  {
  }

  /** A record without a name field stops the pass at its position. */
  lemma StepOnMalformed(st: State, raw: RawRecord, position: nat)
    requires Header.NameField(raw.description).None?
    ensures Step(st, raw, position) == Err(MalformedHeader(position, raw.description))
  {
  }

  /** An empty original-description lookup stops the pass. */
  lemma StepOnMissingOriginal(st: State, raw: RawRecord, position: nat, name: string)
    requires Header.NameField(raw.description) == Some(name)
    requires name in st.seen && OriginalDescription(st.traced, name).None?
    ensures Step(st, raw, position) == Err(NoOriginal(name))
  {
  }

  /** A record with a seen name adds the report built from the looked-up description, and nothing else. */
  lemma StepOnSeenName(st: State, raw: RawRecord, position: nat, name: string, original: string)
    requires Header.NameField(raw.description) == Some(name)
    requires name in st.seen && OriginalDescription(st.traced, name) == Some(original)
    ensures Step(st, raw, position) == Ok(st.(duplicates := st.duplicates + [Duplicate(name, raw.description, original)]))
  {
  }

  /** The whole pass keeps the invariant and fails only on a malformed header. */
  lemma {:induction false} RunConsistent(records: seq<RawRecord>)
    ensures Run(records).Ok? ==> Consistent(Run(records).value)
    ensures Run(records).Err? ==> Run(records).error.MalformedHeader?
    decreases |records|
  {
    if |records| > 0 {
      var prefix := records[..|records| - 1];
      RunConsistent(prefix);
      if Run(prefix).Ok? {
        StepKeepsConsistent(Run(prefix).value, records[|records| - 1], |records| - 1);
      }
    }
  }

  /** A malformed-header failure names an input record whose header has no name field. */
  lemma {:induction false} FailureLocated(records: seq<RawRecord>)
    ensures var r := Run(records);
      r.Err? && r.error.MalformedHeader? ==>
        && r.error.position < |records|
        && r.error.description == records[r.error.position].description
        && Header.NameField(r.error.description).None?
    decreases |records|
  {
    if |records| > 0 {
      var m := |records| - 1;
      var front := records[..m];
      FailureLocated(front);
      if Run(front).Err? {
        assert Run(records) == Run(front);
        if Run(front).error.MalformedHeader? {
          var p := Run(front).error.position;
          assert front[p] == records[p];
        }
      }
    }
  }

  /** Once a prefix of the input fails, the whole pass fails the same way. */
  lemma {:induction false} FailurePersists(records: seq<RawRecord>, m: nat)
    requires m <= |records|
    requires Run(records[..m]).Err?
    ensures Run(records) == Run(records[..m])
    decreases |records| - m
  {
    if m < |records| {
      assert records[..m + 1][..m] == records[..m];
      FailurePersists(records, m + 1);
    } else {
      assert records[..m] == records;
    }
  }

  /** The pass over a non-empty input is the pass over all but its last record, then one step. */
  lemma RunLast(records: seq<RawRecord>, front: seq<RawRecord>, last: RawRecord)
    requires |records| > 0 && front == records[..|records| - 1] && last == records[|records| - 1]
    requires Run(front).Ok?
    ensures Run(records) == Step(Run(front).value, last, |front|)
  {
  }

  /** A successful pass succeeded on every prefix along the way. */
  lemma RunOkPrefix(records: seq<RawRecord>)
    requires |records| > 0 && Run(records).Ok?
    ensures Run(records[..|records| - 1]).Ok?
  {
  }

  /** Running one more record is one more step. */
  lemma RunOneMore(records: seq<RawRecord>, i: nat)
    requires i < |records|
    requires Run(records[..i]).Ok?
    ensures Run(records[..i + 1]) == Step(Run(records[..i]).value, records[i], i)
  {
    var p := records[..i + 1];
    assert p[..i] == records[..i];
    assert p[i] == records[i];
    RunLast(p, records[..i], records[i]);
  }

  /**
   The loop body for the record at `position`, over the loop's variables:
   the name test, the two appends with their shared normalised residues, or
   the report with its original-description lookup. Started from variables
   that satisfy the loop invariant, it fails only on a header without a name
   field, and otherwise leaves the invariant holding.
   */
  method Absorb(seen: set<string>, kept: seq<SeqRecord>, traced: seq<SeqRecord>, duplicates: seq<Duplicate>,
                raw: RawRecord, position: nat)
    returns (outcome: Result<State, Failure>)
    requires Consistent(State(seen, kept, traced, duplicates))
    ensures outcome == Step(State(seen, kept, traced, duplicates), raw, position)
    ensures outcome.Err? <==> Header.NameField(raw.description).None?
    ensures outcome.Ok? ==> Consistent(outcome.value)
  {
    ghost var before := State(seen, kept, traced, duplicates);
    StepKeepsConsistent(before, raw, position);
    var field := Header.NameField(raw.description);
    if field.None? {
      StepOnMalformed(before, raw, position);
      return Err(MalformedHeader(position, raw.description));
    }
    var name := field.value;
    if name !in seen {
      var residues := Residues.Clean(raw.residues);
      StepOnNewName(before, raw, position, name);
      return Ok(State(seen + {name}, kept + [SeqRecord(name, name, name, residues)],
                      traced + [SeqRecord(name, name, raw.description, residues)], duplicates));
    }
    var original := OriginalDescription(traced, name);
    if original.None? {
      StepOnMissingOriginal(before, raw, position, name);
      return Err(NoOriginal(name));
    }
    StepOnSeenName(before, raw, position, name, original.value);
    return Ok(State(seen, kept, traced, duplicates + [Duplicate(name, raw.description, original.value)]));
  }

  /**
   The loop itself: the accumulators start empty, each record is absorbed
   in input order, and the first failure ends the pass.
   */
  method NormalizeLoop(records: seq<RawRecord>) returns (result: Result<State, Failure>)
    ensures result == Run(records)
    ensures result.Ok? ==> Consistent(result.value)
    ensures result.Err? ==> result.error.MalformedHeader?
  {
    var seen: set<string> := {};
    var kept: seq<SeqRecord> := [];
    var traced: seq<SeqRecord> := [];
    var duplicates: seq<Duplicate> := [];
    var i := 0;
    while i < |records|
      invariant i <= |records|
      invariant Run(records[..i]) == Ok(State(seen, kept, traced, duplicates))
    {
      RunOneMore(records, i);
      RunConsistent(records[..i]);
      var outcome := Absorb(seen, kept, traced, duplicates, records[i], i);
      if outcome.Err? {
        result := outcome;
        break;
      }
      seen, kept, traced, duplicates := outcome.value.seen, outcome.value.kept, outcome.value.traced, outcome.value.duplicates;
      i := i + 1;
    }
    if i < |records| {
      FailurePersists(records, i + 1);
    } else {
      assert records[..i] == records;
      result := Ok(State(seen, kept, traced, duplicates));
    }
    RunConsistent(records);
  }
}
