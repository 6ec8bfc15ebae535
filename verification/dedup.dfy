/**
 What the normaliser promises, stated without the fold: the records kept are
 those at the first occurrence of each name, in input order; the reports are
 those at every later occurrence, each pointing back at the first one.
 */
module Dedup {
  import opened Results
  import Header
  import Residues
  import opened Normalizer

  /** Every description has a second `|` field. */
  ghost predicate Parses(records: seq<RawRecord>) {
    forall i :: 0 <= i < |records| ==> Header.NameField(records[i].description).Some?
  }

  /** The canonical name of every input record, position by position. */
  function Names(records: seq<RawRecord>): (names: seq<string>)
    requires Parses(records)
    ensures |names| == |records|
  {
    seq(|records|, i requires 0 <= i < |records| => Header.NameField(records[i].description).value)
  }

  /** The input parses when its prefix does and the last header has a name field. */
  lemma ParsesGrow(records: seq<RawRecord>)
    requires |records| > 0
    ensures Parses(records) <==>
      Parses(records[..|records| - 1]) && Header.NameField(records[|records| - 1].description).Some?
  {
    var m := |records| - 1;
    assert forall i :: 0 <= i < m ==> records[..m][i] == records[i];
  }

  /** The name at a position is the one read from that record's header. */
  lemma NameAt(records: seq<RawRecord>, i: nat)
    requires Parses(records) && i < |records|
    ensures Header.NameField(records[i].description) == Some(Names(records)[i])
  {
  }

  /** The distinct names of a list. */
  function Distinct(names: seq<string>): set<string> {
    set n | n in names
  }

  /** Position `i` holds the first occurrence of its name. */
  predicate IsFirst(names: seq<string>, i: nat)
    requires i < |names|
  {
    forall j :: 0 <= j < i ==> names[j] != names[i]
  }

  /** The positions of first occurrences, in increasing order. */
  function FirstPositions(names: seq<string>): seq<nat> {
    if |names| == 0 then []
    else
      var m := |names| - 1;
      FirstPositions(names[..m]) + (if IsFirst(names, m) then [m] else [])
  }

  /** The positions of repeated occurrences, in increasing order. */
  function LaterPositions(names: seq<string>): seq<nat> {
    if |names| == 0 then []
    else
      var m := |names| - 1;
      LaterPositions(names[..m]) + (if IsFirst(names, m) then [] else [m])
  }

  /** Positions are listed in increasing order. */
  ghost predicate Increasing(pos: seq<nat>) {
    forall k, l :: 0 <= k < l < |pos| ==> pos[k] < pos[l]
  }

  /** `FirstPositions` lists exactly the first occurrences, in increasing order. */
  lemma {:induction false} FirstPositionsExact(names: seq<string>)
    ensures var pos := FirstPositions(names);
      && (forall k :: 0 <= k < |pos| ==> pos[k] < |names| && IsFirst(names, pos[k]))
      && (forall i :: 0 <= i < |names| && IsFirst(names, i) ==> i in pos)
      && Increasing(pos)
  {
    if |names| > 0 {
      var m := |names| - 1;
      var p := FirstPositions(names[..m]);
      var pos := FirstPositions(names);
      FirstPositionsExact(names[..m]);
      forall k | 0 <= k < |pos|
        ensures pos[k] < |names| && IsFirst(names, pos[k])
      {
        if k < |p| {
          assert pos[k] == p[k];
          FirstInPrefix(names, m, p[k]);
        }
      }
      forall i | 0 <= i < |names| && IsFirst(names, i)
        ensures i in pos
      {
        if i < m {
          FirstInPrefix(names, m, i);
          assert i in p;
        } else {
          assert pos == p + [m];
        }
      }
    }
  }

  /** `LaterPositions` lists exactly the repeated occurrences, in increasing order. */
  lemma {:induction false} LaterPositionsExact(names: seq<string>)
    ensures var pos := LaterPositions(names);
      && (forall k :: 0 <= k < |pos| ==> pos[k] < |names| && !IsFirst(names, pos[k]))
      && (forall i :: 0 <= i < |names| && !IsFirst(names, i) ==> i in pos)
      && Increasing(pos)
  {
    if |names| > 0 {
      var m := |names| - 1;
      var p := LaterPositions(names[..m]);
      var pos := LaterPositions(names);
      LaterPositionsExact(names[..m]);
      forall k | 0 <= k < |pos|
        ensures pos[k] < |names| && !IsFirst(names, pos[k])
      {
        if k < |p| {
          assert pos[k] == p[k];
          FirstInPrefix(names, m, p[k]);
        }
      }
      forall i | 0 <= i < |names| && !IsFirst(names, i)
        ensures i in pos
      {
        if i < m {
          FirstInPrefix(names, m, i);
          assert i in p;
        } else {
          assert pos == p + [m];
        }
      }
    }
  }

  /** Being a first occurrence does not depend on what follows. */
  lemma FirstInPrefix(names: seq<string>, m: nat, i: nat)
    requires i < m <= |names|
    ensures names[..m][i] == names[i]
    ensures IsFirst(names[..m], i) <==> IsFirst(names, i)
  {
    assert forall j :: 0 <= j < m ==> names[..m][j] == names[j];
  }

  /** The position of the first occurrence of `n`. */
  function FirstIndex(names: seq<string>, n: string): (i: nat)
    requires n in names
    ensures i < |names| && names[i] == n && IsFirst(names, i)
  {
    if names[0] == n then 0
    else
      var j := FirstIndex(names[1..], n);
      assert names[..j + 1] == [names[0]] + names[1..][..j];
      j + 1
  }

  /** The first occurrence is the only position that is both `n` and first. */
  lemma FirstIndexUnique(names: seq<string>, n: string, i: nat)
    requires i < |names| && names[i] == n && IsFirst(names, i)
    ensures FirstIndex(names, n) == i
  {
    var f := FirstIndex(names, n);
    assert forall j :: 0 <= j < i ==> names[..i][j] == names[j];
    assert forall j :: 0 <= j < f ==> names[..f][j] == names[j];
  }

  /** The last name is a first occurrence exactly when it is new to the names before it. */
  lemma LastIsFirst(names: seq<string>, m: nat)
    requires m == |names| - 1
    ensures IsFirst(names, m) <==> names[m] !in Distinct(names[..m])
  {
    assert forall j :: 0 <= j < m ==> names[..m][j] == names[j];
  }

  /** Every name has exactly one first occurrence, so there are as many as there are distinct names. */
  lemma {:induction false} FirstPositionsCount(names: seq<string>)
    ensures |FirstPositions(names)| == |Distinct(names)|
    ensures |FirstPositions(names)| + |LaterPositions(names)| == |names|
  {
    if |names| > 0 {
      var m := |names| - 1;
      FirstPositionsCount(names[..m]);
      assert names == names[..m] + [names[m]];
      assert Distinct(names) == Distinct(names[..m]) + {names[m]};
      LastIsFirst(names, m);
      if IsFirst(names, m) {
        assert |FirstPositions(names)| == |FirstPositions(names[..m])| + 1;
        assert |LaterPositions(names)| == |LaterPositions(names[..m])|;
      } else {
        assert |FirstPositions(names)| == |FirstPositions(names[..m])|;
        assert |LaterPositions(names)| == |LaterPositions(names[..m])| + 1;
        assert Distinct(names) == Distinct(names[..m]);
      }
    }
  }

  /**
   The kept and traced lists hold, in order, the records at positions
   `firsts`, each under its name.
   */
  ghost predicate KeptAt(records: seq<RawRecord>, names: seq<string>, firsts: seq<nat>, kept: seq<SeqRecord>, traced: seq<SeqRecord>) {
    && |kept| == |firsts| && |traced| == |firsts|
    && (forall k :: 0 <= k < |firsts| ==>
          && firsts[k] < |records| && firsts[k] < |names|
          && kept[k] == Primary(names[firsts[k]], records[firsts[k]])
          && traced[k] == Trace(names[firsts[k]], records[firsts[k]]))
  }

  /**
   The reports are, in order, the records at positions `later`, each paired
   with the description of the first record bearing its name.
   */
  ghost predicate ReportsAt(records: seq<RawRecord>, names: seq<string>, later: seq<nat>, reports: seq<Duplicate>) {
    && |reports| == |later|
    && (forall j :: 0 <= j < |later| ==>
          && later[j] < |records| && later[j] < |names| && |names| <= |records|
          && reports[j] == Duplicate(names[later[j]], records[later[j]].description,
                                     records[FirstIndex(names, names[later[j]])].description))
  }

  /**
   The reference description of a finished pass: the kept and traced lists
   hold the first occurrences, the seen set holds every name, and the
   reports are the later occurrences, each naming the first record's
   description.
   */
  ghost predicate Describes(records: seq<RawRecord>, st: State)
    requires Parses(records)
  {
    var names := Names(records);
    && st.seen == Distinct(names)
    && KeptAt(records, names, FirstPositions(names), st.kept, st.traced)
    && ReportsAt(records, names, LaterPositions(names), st.duplicates)
  }

  /** The names of a prefix are a prefix of the names. */
  lemma NamesOfPrefix(records: seq<RawRecord>, m: nat)
    requires Parses(records) && m <= |records|
    ensures Parses(records[..m])
    ensures Names(records[..m]) == Names(records)[..m]
  {
    assert forall i :: 0 <= i < m ==> records[..m][i] == records[i];
  }

  lemma KeptAtGrows(records: seq<RawRecord>, names: seq<string>, m: nat, firsts: seq<nat>, kept: seq<SeqRecord>, traced: seq<SeqRecord>)
    requires m < |records| && m < |names|
    requires KeptAt(records[..m], names[..m], firsts, kept, traced)
    ensures KeptAt(records, names, firsts, kept, traced)
    ensures KeptAt(records, names, firsts + [m], kept + [Primary(names[m], records[m])], traced + [Trace(names[m], records[m])])
  {
    assert forall i :: 0 <= i < m ==> records[..m][i] == records[i] && names[..m][i] == names[i];
  }

  lemma ReportsAtGrows(records: seq<RawRecord>, names: seq<string>, m: nat, later: seq<nat>, reports: seq<Duplicate>)
    requires m < |records| && m < |names| == |records|
    requires ReportsAt(records[..m], names[..m], later, reports)
    requires forall n :: n in names[..m] ==> FirstIndex(names, n) == FirstIndex(names[..m], n)
    ensures ReportsAt(records, names, later, reports)
    ensures names[m] in names
    ensures ReportsAt(records, names, later + [m],
                      reports + [Duplicate(names[m], records[m].description, records[FirstIndex(names, names[m])].description)])
  {
    assert forall i :: 0 <= i < m ==> records[..m][i] == records[i] && names[..m][i] == names[i];
    forall j | 0 <= j < |later|
      ensures FirstIndex(names, names[later[j]]) == FirstIndex(names[..m], names[..m][later[j]])
    {
      assert names[..m][later[j]] in names[..m];
    }
  }

  /** A new name adds one first position; a repeated one adds one later position. */
  lemma PositionsGrow(names: seq<string>)
    requires |names| > 0
    ensures var m := |names| - 1;
      if names[m] in names[..m] then
        FirstPositions(names) == FirstPositions(names[..m]) && LaterPositions(names) == LaterPositions(names[..m]) + [m]
      else
        FirstPositions(names) == FirstPositions(names[..m]) + [m] && LaterPositions(names) == LaterPositions(names[..m])
  {
  }

  /** Facts shared by the two kinds of step: how a prefix's names and positions sit in the whole. */
  lemma PrefixFacts(records: seq<RawRecord>)
    requires Parses(records) && |records| > 0
    ensures Parses(records[..|records| - 1])
    ensures var m := |records| - 1; var names := Names(records); var pnames := Names(records[..m]);
      && pnames == names[..m]
      && Distinct(names) == Distinct(pnames) + {names[m]}
      && (forall n :: n in pnames ==> FirstIndex(names, n) == FirstIndex(pnames, n))
      && (IsFirst(names, m) <==> names[m] !in Distinct(pnames))
  {
    var m := |records| - 1;
    var names := Names(records);
    NamesOfPrefix(records, m);
    var pnames := Names(records[..m]);
    assert names == pnames + [names[m]];
    forall n | n in pnames
      ensures FirstIndex(names, n) == FirstIndex(pnames, n)
    {
      var f := FirstIndex(pnames, n);
      assert names[..f] == pnames[..f];
      FirstIndexUnique(names, n, f);
    }
  }

  /** A record with a new name extends the reference description by one kept record. */
  lemma DescribesNewName(records: seq<RawRecord>, st: State)
    requires Parses(records) && |records| > 0
    requires Parses(records[..|records| - 1]) && Describes(records[..|records| - 1], st)
    requires Names(records)[|records| - 1] !in st.seen
    ensures var m := |records| - 1; var name := Names(records)[m];
      Describes(records, State(st.seen + {name}, st.kept + [Primary(name, records[m])],
                               st.traced + [Trace(name, records[m])], st.duplicates))
  {
    var m := |records| - 1;
    PrefixFacts(records);
    var names := Names(records);
    var pnames := Names(records[..m]);
    PositionsGrow(names);
    KeptAtGrows(records, names, m, FirstPositions(pnames), st.kept, st.traced);
    ReportsAtGrows(records, names, m, LaterPositions(pnames), st.duplicates);
  }

  /** On a repeated name the kept records stay those at the first positions. */
  lemma KeptOnRepeat(records: seq<RawRecord>, names: seq<string>, kept: seq<SeqRecord>, traced: seq<SeqRecord>)
    requires |names| == |records| > 0
    requires names[|names| - 1] in names[..|names| - 1]
    requires KeptAt(records[..|records| - 1], names[..|names| - 1], FirstPositions(names[..|names| - 1]), kept, traced)
    ensures KeptAt(records, names, FirstPositions(names), kept, traced)
  {
    var m := |names| - 1;
    PositionsGrow(names);
    KeptAtGrows(records, names, m, FirstPositions(names[..m]), kept, traced);
  }

  /** On a repeated name one report is added, naming the first record's description. */
  lemma ReportsOnRepeat(records: seq<RawRecord>, names: seq<string>, reports: seq<Duplicate>)
    requires |names| == |records| > 0
    requires names[|names| - 1] in names[..|names| - 1]
    requires ReportsAt(records[..|records| - 1], names[..|names| - 1], LaterPositions(names[..|names| - 1]), reports)
    requires forall n :: n in names[..|names| - 1] ==> FirstIndex(names, n) == FirstIndex(names[..|names| - 1], n)
    ensures var m := |names| - 1;
      ReportsAt(records, names, LaterPositions(names),
                reports + [Duplicate(names[m], records[m].description, records[FirstIndex(names, names[m])].description)])
  {
    var m := |names| - 1;
    PositionsGrow(names);
    ReportsAtGrows(records, names, m, LaterPositions(names[..m]), reports);
  }

  /** The traced record holding a name carries the description of the first record with that name. */
  lemma TracedIsFirst(records: seq<RawRecord>, names: seq<string>, m: nat, traced: seq<SeqRecord>, kept: seq<SeqRecord>, k: nat)
    requires m < |names| == |records|
    requires KeptAt(records[..m], names[..m], FirstPositions(names[..m]), kept, traced)
    requires k < |kept| && kept[k].name == names[m]
    ensures names[m] in names[..m]
    ensures traced[k].description == records[FirstIndex(names, names[m])].description
  {
    var pnames := names[..m];
    var firsts := FirstPositions(pnames);
    var f := firsts[k];
    assert traced[k] == Trace(pnames[f], records[..m][f]);
    assert records[..m][f] == records[f];
    assert pnames[f] == names[m];
    FirstPositionsExact(pnames);
    assert IsFirst(names, f) by {
      assert IsFirst(pnames, f);
      assert pnames[..f] == names[..f];
    }
    FirstIndexUnique(names, names[m], f);
  }

  /** A record with a seen name extends the reference description by one report. */
  lemma DescribesDuplicate(records: seq<RawRecord>, st: State, k: nat)
    requires Parses(records) && |records| > 0
    requires Parses(records[..|records| - 1]) && Describes(records[..|records| - 1], st)
    requires k < |st.kept| && st.kept[k].name == Names(records)[|records| - 1]
    ensures var m := |records| - 1; var name := Names(records)[m];
      Describes(records, st.(duplicates := st.duplicates + [Duplicate(name, records[m].description, st.traced[k].description)]))
  {
    var m := |records| - 1;
    PrefixFacts(records);
    var names := Names(records);
    TracedIsFirst(records, names, m, st.traced, st.kept, k);
    KeptOnRepeat(records, names, st.kept, st.traced);
    ReportsOnRepeat(records, names, st.duplicates);
  }

  /**
   The pass succeeds exactly when every header has a name field, and then its
   result is the reference description.
   */
  lemma {:induction false} RunMatchesReference(records: seq<RawRecord>)
    ensures Run(records).Ok? <==> Parses(records)
    ensures Parses(records) ==> Describes(records, Run(records).value)
    decreases |records|
  {
    if |records| == 0 {
      return;
    }
    var m := |records| - 1;
    var prefix := records[..m];
    RunMatchesReference(prefix);
    RunConsistent(prefix);
    ParsesGrow(records);
    if !Parses(prefix) {
      return;
    }
    var st := Run(prefix).value;
    StepKeepsConsistent(st, records[m], m);
    if !Parses(records) {
      return;
    }
    var name := Names(records)[m];
    NameAt(records, m);
    if name !in st.seen {
      assert forall k :: 0 <= k < |st.kept| ==> st.kept[k].name != name;
      StepOnNewName(st, records[m], m, name);
      DescribesNewName(records, st);
    } else {
      var k :| 0 <= k < |st.kept| && st.kept[k].name == name;
      StepOnDuplicate(st, records[m], m, name, k);
      DescribesDuplicate(records, st, k);
    }
  }

  /** No name is kept twice. */
  lemma KeptNamesUnique(records: seq<RawRecord>)
    ensures Run(records).Ok? ==>
      var kept := Run(records).value.kept;
      forall k, l :: 0 <= k < l < |kept| ==> kept[k].name != kept[l].name
  {
    RunConsistent(records);
  }

  /**
   Every kept record is gap-free and upper-case, and carries its name as id,
   name and description.
   */
  lemma KeptRecordsNormalised(records: seq<RawRecord>)
    ensures Run(records).Ok? ==>
      var kept := Run(records).value.kept;
      forall k :: 0 <= k < |kept| ==>
        && Residues.Gap !in kept[k].residues
        && (forall i :: 0 <= i < |kept[k].residues| ==> !Residues.IsLower(kept[k].residues[i]))
        && kept[k].id == kept[k].name && kept[k].description == kept[k].name
  {
    RunMatchesReference(records);
  }

  /**
   Every input name is kept, and the record kept for it is built from the
   first input record bearing it: a later record with the same name never
   replaces it.
   */
  lemma FirstRecordSurvives(records: seq<RawRecord>, i: nat)
    requires Parses(records) && i < |records|
    ensures Run(records).Ok?
    ensures var st := Run(records).value; var names := Names(records); var first := FirstIndex(names, names[i]);
      && names[i] in st.seen
      && |st.traced| == |st.kept|
      && (exists k :: 0 <= k < |st.kept| && st.kept[k].name == names[i])
      && (forall k :: 0 <= k < |st.kept| && st.kept[k].name == names[i] ==>
            && st.kept[k].residues == Residues.Clean(records[first].residues)
            && st.traced[k].description == records[first].description)
  {
    RunMatchesReference(records);
    var st := Run(records).value;
    var names := Names(records);
    var firsts := FirstPositions(names);
    var first := FirstIndex(names, names[i]);
    FirstPositionsExact(names);
    assert first in firsts;
    var k0 :| 0 <= k0 < |firsts| && firsts[k0] == first;
    assert st.kept[k0].name == names[i];
    forall k | 0 <= k < |st.kept| && st.kept[k].name == names[i]
      ensures st.kept[k].residues == Residues.Clean(records[first].residues)
      ensures st.traced[k].description == records[first].description
    {
      FirstIndexUnique(names, names[i], firsts[k]);
    }
  }

  /** Kept records appear in the order in which their names first appear in the input. */
  lemma KeptInFirstAppearanceOrder(records: seq<RawRecord>)
    requires Parses(records)
    ensures Run(records).Ok?
    ensures var kept := Run(records).value.kept; var names := Names(records);
      && (forall k :: 0 <= k < |kept| ==> kept[k].name in names)
      && (forall k, l :: 0 <= k < l < |kept| ==> FirstIndex(names, kept[k].name) < FirstIndex(names, kept[l].name))
  {
    RunMatchesReference(records);
    var kept := Run(records).value.kept;
    var names := Names(records);
    var firsts := FirstPositions(names);
    FirstPositionsExact(names);
    forall k | 0 <= k < |kept|
      ensures kept[k].name in names && FirstIndex(names, kept[k].name) == firsts[k]
    {
      FirstIndexUnique(names, names[firsts[k]], firsts[k]);
    }
  }

  /**
   One report per dropped record: the kept records number the distinct names
   and the reports make up the rest of the input.
   */
  lemma ReportCount(records: seq<RawRecord>)
    requires Parses(records)
    ensures Run(records).Ok?
    ensures |Run(records).value.kept| == |Distinct(Names(records))|
    ensures |Run(records).value.duplicates| == |records| - |Distinct(Names(records))|
  {
    RunMatchesReference(records);
    FirstPositionsCount(Names(records));
  }

  /**
   Every report is about a record whose name appeared earlier, and points at
   the first record with that name, not at the closest earlier one.
   */
  lemma ReportsPointAtFirst(records: seq<RawRecord>)
    requires Parses(records)
    ensures Run(records).Ok?
    ensures var reports := Run(records).value.duplicates; var names := Names(records);
      forall j :: 0 <= j < |reports| ==>
        && reports[j].name in names
        && (exists i :: 0 <= i < |records| && !IsFirst(names, i) && names[i] == reports[j].name
                        && records[i].description == reports[j].description)
        && reports[j].original == records[FirstIndex(names, reports[j].name)].description
  {
    RunMatchesReference(records);
    var names := Names(records);
    var later := LaterPositions(names);
    var reports := Run(records).value.duplicates;
    LaterPositionsExact(names);
    forall j | 0 <= j < |reports|
      ensures reports[j].name in names
      ensures exists i :: 0 <= i < |records| && !IsFirst(names, i) && names[i] == reports[j].name
                          && records[i].description == reports[j].description
    {
      var i := later[j];
      assert names[i] == reports[j].name && records[i].description == reports[j].description;
    }
  }

  /** An empty input keeps nothing and reports nothing. */
  lemma EmptyInput()
    ensures Run([]) == Ok(State({}, [], [], []))
  {
  }

  /**
   Two records under one name and one under another: the first two collide,
   the second is reported against the first, the third is kept.
   */
  lemma CollidingPair(a: RawRecord, b: RawRecord, c: RawRecord, x: string, y: string)
    requires Header.NameField(a.description) == Some(x)
    requires Header.NameField(b.description) == Some(x)
    requires Header.NameField(c.description) == Some(y)
    requires x != y
    ensures Run([a, b, c]) == Ok(State({x, y}, [Primary(x, a), Primary(y, c)], [Trace(x, a), Trace(y, c)],
                                       [Duplicate(x, b.description, a.description)]))
  {
    assert [a, b, c][..2] == [a, b];
    assert [a, b][..1] == [a];
    assert [a][..0] == [];
    assert Start.seen + {x} == {x};
    assert Start.kept + [Primary(x, a)] == [Primary(x, a)];
    assert Start.traced + [Trace(x, a)] == [Trace(x, a)];
    var one := State({x}, [Primary(x, a)], [Trace(x, a)], []);
    assert Run([a]) == Ok(one);
    assert OriginalDescription([Trace(x, a)], x) == Some(a.description);
    assert [] + [Duplicate(x, b.description, a.description)] == [Duplicate(x, b.description, a.description)];
    var two := one.(duplicates := [Duplicate(x, b.description, a.description)]);
    assert Run([a, b]) == Ok(two);
    assert {x} + {y} == {x, y};
    assert [Primary(x, a)] + [Primary(y, c)] == [Primary(x, a), Primary(y, c)];
    assert [Trace(x, a)] + [Trace(y, c)] == [Trace(x, a), Trace(y, c)];
  }

  /** Three records under one name give two reports, both against the first record. */
  lemma ThreeOccurrences(a: RawRecord, b: RawRecord, c: RawRecord, x: string)
    requires Header.NameField(a.description) == Some(x)
    requires Header.NameField(b.description) == Some(x)
    requires Header.NameField(c.description) == Some(x)
    ensures Run([a, b, c]) == Ok(State({x}, [Primary(x, a)], [Trace(x, a)],
                                       [Duplicate(x, b.description, a.description), Duplicate(x, c.description, a.description)]))
  {
    assert [a, b, c][..2] == [a, b];
    assert [a, b][..1] == [a];
    assert [a][..0] == [];
    assert Start.seen + {x} == {x};
    assert Start.kept + [Primary(x, a)] == [Primary(x, a)];
    assert Start.traced + [Trace(x, a)] == [Trace(x, a)];
    var one := State({x}, [Primary(x, a)], [Trace(x, a)], []);
    assert Run([a]) == Ok(one);
    assert OriginalDescription([Trace(x, a)], x) == Some(a.description);
    assert [] + [Duplicate(x, b.description, a.description)] == [Duplicate(x, b.description, a.description)];
    var two := one.(duplicates := [Duplicate(x, b.description, a.description)]);
    assert Run([a, b]) == Ok(two);
    assert two.duplicates + [Duplicate(x, c.description, a.description)]
        == [Duplicate(x, b.description, a.description), Duplicate(x, c.description, a.description)];
  }
}
