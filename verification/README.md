# IMGT germline cleaner, modelled in Dafny

`scripts/scriptsdb/clean_imgtdb.py` prepares IMGT germline FASTA files for an
IgBLAST database. It makes one pass over the records in input order:

- it reads a canonical name from the second `|`-separated field of each
  header;
- it keeps only the first record seen under each name;
- it normalises that record's residues by removing `.` gap markers and
  upper-casing;
- for every later record with the same name, it reports the duplicate
  together with the description of the record that first claimed the name.

The pass keeps two parallel lists. `seq_list` has the name as its
description and is the list that gets written. `seq_list_desc` keeps the
original description and exists only to feed the duplicate reports.

The model has these modules:

- `Results`: `Option` and `Result`.
- `Text`: Python's `str.split` with a one-character separator, and its
  inverse `join`.
- `Header`: name extraction.
- `Residues`: gap removal and ASCII upper-casing.
- `Normalizer`: the records, the loop state, one loop step, the whole pass
  as a fold, the loop invariant, and an imperative loop that mirrors the
  script.
- `Dedup`: a reference description of the result that does not use the
  fold. It is written in terms of first and later occurrence positions, and
  the module proves that the pass produces exactly that result.
- `TwoLine`: the two-line output layout, stated abstractly, together with a
  reader for it.

Python's two `IndexError`s are modelled as `Err` values:

- `MalformedHeader(position, description)` is the header without a second
  field.
- `NoOriginal(name)` is the empty original-description lookup. It is proved
  never to occur.

The `print`ed reports are returned as data: a list of
`Duplicate(name, description, original)`.

## Model

| member | source | states |
|---|---|---|
| Header.NameField | scripts/scriptsdb/clean_imgtdb.py:20 | A name is produced exactly when the description contains a bar (otherwise the index raises). The name itself never contains a bar. |
| Header.NameFieldByPosition | scripts/scriptsdb/clean_imgtdb.py:20 | Taking field 1 of the split gives the same result as the positional reading: the text after the first bar, up to the next bar or the end of the line. |
| Header.NameWithinDescription | scripts/scriptsdb/clean_imgtdb.py:20 | Every character of the extracted name occurs in the description. |
| Header.NameFieldOfShape | scripts/scriptsdb/clean_imgtdb.py:20 | Conversely, any header made of a bar-free head, a bar, a bar-free name, and then either nothing or a bar followed by anything, yields exactly `name`. |
| Header.ExampleHeader | scripts/scriptsdb/clean_imgtdb.py:20 | On a concrete IMGT-like header the name is the second field. A header without a bar has no name. |
| Text.Split | scripts/scriptsdb/clean_imgtdb.py:20 | `.split(sep)` always yields at least one field. Its fields are characterised by `Text.SplitFields`, `Text.SplitAround` and the two round trips below. |
| Text.SplitFields | scripts/scriptsdb/clean_imgtdb.py:20 | `split` yields one field more than there are separators, and no field contains the separator. |
| Text.JoinSplit | scripts/scriptsdb/clean_imgtdb.py:20 | Joining the fields of a split with the separator restores the original text, so splitting loses nothing. |
| Text.SplitJoin | scripts/scriptsdb/clean_imgtdb.py:20 | Splitting the join of separator-free fields gives back exactly those fields. |
| Text.SplitAround | scripts/scriptsdb/clean_imgtdb.py:20 | The fields of `a + sep + b` are the fields of `a` followed by those of `b`. |
| Residues.RemoveGaps | scripts/scriptsdb/clean_imgtdb.py:23-24 | The result has no `.`. Its length is the input length minus the number of gaps. Its characters are exactly the input's non-gap characters. A gap-free input is unchanged. |
| Residues.UpperChar | scripts/scriptsdb/clean_imgtdb.py:23-24 | The result is never lower case. It differs from the input exactly on lower-case letters, and it is an upper-case letter exactly when the input was a letter. |
| Residues.CapitalOfEachLetter | scripts/scriptsdb/clean_imgtdb.py:23-24 | Checked against an independent alphabet table: each of the 26 lower-case letters becomes the capital at the same position. |
| Residues.UpperCharIsCapital | scripts/scriptsdb/clean_imgtdb.py:23-24 | For any character: a lower-case letter becomes the capital at its own alphabet position in that table. |
| Residues.Upper | scripts/scriptsdb/clean_imgtdb.py:23-24 | `.upper()` keeps the length and maps each position on its own, by the character rule above. |
| Residues.Clean | scripts/scriptsdb/clean_imgtdb.py:23-24 | Normalised residues have no gap and no lower-case letter. Their length is the input length minus the gaps. Every non-letter in them already occurs in the input. |
| Residues.CleanCommutes | scripts/scriptsdb/clean_imgtdb.py:23-24 | Removing gaps before or after upper-casing gives the same string. |
| Residues.CleanFixedPoints | scripts/scriptsdb/clean_imgtdb.py:23-24 | Normalisation leaves a string unchanged exactly when it is already gap-free and has no lower case. |
| Residues.CleanIdempotent | scripts/scriptsdb/clean_imgtdb.py:23-24 | Normalising twice gives the same result as normalising once. |
| Residues.CleanAppend | scripts/scriptsdb/clean_imgtdb.py:23-24 | Normalisation works piecewise over concatenation. |
| Residues.CleanCons | scripts/scriptsdb/clean_imgtdb.py:23-24 | Read from the front, normalisation drops a leading gap and upper-cases any other leading character, then goes on with the rest. With the empty case from `Clean` (length zero), this fixes the result completely: the non-gap residues, in order, each upper-cased. |
| Residues.CleanAcrossGap | scripts/scriptsdb/clean_imgtdb.py:23-24 | A gap between two runs disappears, and each run is normalised on its own. |
| Residues.ExampleResidues | scripts/scriptsdb/clean_imgtdb.py:23-24 | The gapped alignment `AC.GT.AC` normalises to `ACGTAC`. |
| Residues.ExampleLowerResidues | scripts/scriptsdb/clean_imgtdb.py:23-24 | The lower-case `ac.gt` normalises to `ACGT`. |
| Normalizer.Matching | scripts/scriptsdb/clean_imgtdb.py:40 | The comprehension is empty exactly when no traced record has the name. When it is not empty, its first entry is the description of the earliest traced record with that name. |
| Normalizer.OriginalDescription | scripts/scriptsdb/clean_imgtdb.py:40 | `[0]` fails exactly when no traced record has the name. Otherwise it returns the description of the earliest such record. |
| Normalizer.Step | scripts/scriptsdb/clean_imgtdb.py:20-41 | One loop iteration. When it succeeds, the header had a name field and that name joins the seen set; exactly one entry is added in total, either to the kept list or to the reports. A header failure names this record's position and description. |
| Normalizer.StepOnlyAppends | scripts/scriptsdb/clean_imgtdb.py:25-26 | A step only appends: both lists and the reports keep everything they held, in front. |
| Normalizer.StepKeepsConsistent | scripts/scriptsdb/clean_imgtdb.py:19-41 | Under the loop invariant, one iteration fails exactly when the header has no name field, and a successful iteration preserves the invariant. |
| Normalizer.StepOnDuplicate | scripts/scriptsdb/clean_imgtdb.py:27-41 | A record with a seen name leaves the set and both lists unchanged. Its lookup succeeds, and the one report it adds names the description of the record already kept under that name. |
| Normalizer.Run | scripts/scriptsdb/clean_imgtdb.py:16-41 | The whole loop. A finished pass accounts for every input record exactly once, as kept or as reported. It succeeds exactly when every header parses, and then equals the reference (see `Dedup.RunMatchesReference`). |
| Normalizer.RunConsistent | scripts/scriptsdb/clean_imgtdb.py:16-41 | The pass keeps the loop invariant: the two lists are parallel and agree on id, name and residues; the first list uses the name as description; the set equals the names kept; and no name is kept twice. The only possible failure is a malformed header. |
| Normalizer.FailureLocated | scripts/scriptsdb/clean_imgtdb.py:19-20 | A malformed-header failure names a real input position, with that record's own description, and that description has no name field. |
| Normalizer.FailurePersists | scripts/scriptsdb/clean_imgtdb.py:19-20 | Once a prefix of the input fails on a header, the whole pass fails with that same error. |
| Normalizer.NormalizeLoop | scripts/scriptsdb/clean_imgtdb.py:16-41 | The imperative loop, with its four accumulators, computes the same result as the fold. It ends either with the invariant holding or with a malformed-header failure. |
| Normalizer.Absorb | scripts/scriptsdb/clean_imgtdb.py:20-41 | Started from loop variables that satisfy the loop invariant, one execution of the loop body fails exactly when the header has no name field (the lookup at line 40 never fails), and otherwise leaves the invariant holding. It agrees with one step of the fold. |
| Dedup.FirstIndex | scripts/scriptsdb/clean_imgtdb.py:40 | For a name in the list, it gives a position holding that name with no earlier occurrence. |
| Dedup.FirstPositionsExact | scripts/scriptsdb/clean_imgtdb.py:21-26 | The reference list of kept positions holds exactly the first occurrences, in increasing order. |
| Dedup.LaterPositionsExact | scripts/scriptsdb/clean_imgtdb.py:27-41 | The reference list of dropped positions holds exactly the repeated occurrences, in increasing order. |
| Dedup.FirstPositionsCount | scripts/scriptsdb/clean_imgtdb.py:19-41 | There are as many first occurrences as distinct names. First and later occurrences together account for every record. |
| Dedup.RunMatchesReference | scripts/scriptsdb/clean_imgtdb.py:16-41 | The pass succeeds exactly when every header has a name field. Its result then equals the reference: the set is the distinct names; the lists are the normalised records at the first occurrences, in order; the reports are the later occurrences, in order, each paired with the description of the first record of its name. |
| Dedup.KeptNamesUnique | scripts/scriptsdb/clean_imgtdb.py:16-25 | No name appears twice in the written list. |
| Dedup.KeptRecordsNormalised | scripts/scriptsdb/clean_imgtdb.py:23 | Every written record is gap-free and has no lower-case letter, and its id and description both equal its name. |
| Dedup.FirstRecordSurvives | scripts/scriptsdb/clean_imgtdb.py:21-28 | Every input name is kept. The kept record's residues, and its traced description, come from the first input record with that name, never from a later duplicate. |
| Dedup.KeptInFirstAppearanceOrder | scripts/scriptsdb/clean_imgtdb.py:25 | Kept records appear in the order in which their names first appear in the input. |
| Dedup.ReportCount | scripts/scriptsdb/clean_imgtdb.py:19-41 | The written list has one record per distinct name. There is one report per dropped record: the number of records minus the number of distinct names. |
| Dedup.ReportsPointAtFirst | scripts/scriptsdb/clean_imgtdb.py:38-40 | Every report is about a repeated occurrence of its name and carries that record's own description. Its original is the description of the first record with the name, not of the nearest earlier one. |
| Dedup.EmptyInput | scripts/scriptsdb/clean_imgtdb.py:16-19 | An empty input keeps nothing and reports nothing. |
| Dedup.CollidingPair | scripts/scriptsdb/clean_imgtdb.py:21-41 | For `x, x, y`: the second record is reported against the first, and the first and third are kept, in that order. |
| Dedup.ThreeOccurrences | scripts/scriptsdb/clean_imgtdb.py:21-41 | For three records under one name, only the first is kept, and both reports point at the first. |
| TwoLine.Render | scripts/scriptsdb/clean_imgtdb.py:44-51 | The output is empty exactly when no record is kept. Otherwise it starts with a `>` header marker and ends with a newline, and it has at least three characters per record. Its full shape is fixed by `TwoLine.RenderReadRoundTrip`. |
| TwoLine.RenderReadRoundTrip | scripts/scriptsdb/clean_imgtdb.py:44-51 | Reading back the two-line output of records whose name and residues have no newline gives, in order, each record's name as its description and its residues. |
| TwoLine.KeptAreOneLine | scripts/scriptsdb/clean_imgtdb.py:20-24 | If no input description or residue string contains a newline, no kept record does either, so each one fits on its two lines. |
| TwoLine.SecondPassFails | scripts/scriptsdb/clean_imgtdb.py:44-51 | When at least one record is kept, a second pass over the output stops at its first record: a bare name has no second field. |

## Left out

- Command-line arguments (lines 12-13) are process plumbing; the input is a
  sequence of records and the output is returned.
- FASTA parsing by `SeqIO.parse` (line 19) is library code outside this
  model. Each record enters as a `RawRecord(description, residues)`.
- Output writing (lines 43-51) is file I/O. This covers the Biopython version
  test and the choice between `fasta-2line` and `FastaWriter(wrap=None)`. Both
  branches write `>title` plus one unwrapped residue line. `TwoLine` states
  only that shape, with the name as the whole title, and it does not model
  the library's handling of id versus description in the title.
- The `print` calls (lines 38-41) are not modelled as text. Each report is
  the data they print: name, own description and original description.
- When a malformed header aborts the pass, the reports already printed for
  earlier records are not carried in the `Err` value.
- `Residues.UpperChar`: only ASCII `a`-`z` are upper-cased. `rec.seq` is a
  Biopython `Seq`. When its data are ASCII bytes, `.upper()` is ASCII-only
  already, and the model matches it. Only for a `Seq` backed by a Python
  `str` would `.upper()` also map other Unicode letters and possibly change
  the length (for example `ß`). That case is outside this model.
- `Normalizer.Absorb`: the script normalises the residues twice, once per
  list. The model computes the string once and stores it in both records,
  which gives the same value. The loop's mutable set and lists are modelled
  as immutable values.
- Biopython `SeqRecord` fields other than id, name, description and residues
  are not modelled. The script never sets them.
