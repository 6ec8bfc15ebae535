/**
 The canonical name of a germline record: the second `|`-separated field of
 its FASTA description line (`rec.description.split('|')[1]`).
 */
module Header {
  import opened Results
  import Text

  /** The field separator of IMGT description lines. */
  const Bar: char := '|'

  /**
   The second field of `description`, or `None` where Python's `[1]` raises
   `IndexError` because the description has a single field.
   */
  function NameField(description: string): (name: Option<string>)
    ensures name.Some? <==> Bar in description
    ensures name.Some? ==> Bar !in name.value
  {
    Text.SplitFields(description, Bar);
    var fields := Text.Split(description, Bar);
    if |fields| >= 2 then Some(fields[1]) else None
  }

  /** Position of the first `c` in `s`, if any. */
  function IndexOf(s: string, c: char): (i: Option<nat>)
    ensures i.None? <==> c !in s
    ensures i.Some? ==> i.value < |s| && s[i.value] == c && c !in s[..i.value]
  {
    if |s| == 0 then None
    else if s[0] == c then Some(0)
    else
      match IndexOf(s[1..], c)
      case None => None
      case Some(j) =>
        assert s[..j + 1] == [s[0]] + s[1..][..j];
        Some(j + 1)
  }

  /**
   Reference reading of the name, by positions rather than by splitting: the
   text after the first bar, up to the next bar or the end of the line.
   */
  function NameByPosition(description: string): Option<string>
  {
    match IndexOf(description, Bar)
    case None => None
    case Some(i) =>
      var rest := description[i + 1..];
      match IndexOf(rest, Bar)
      case None => Some(rest)
      case Some(j) => Some(rest[..j])
  }

  /** The first field of a split is the text before the first separator. */
  lemma FirstField(s: string, sep: char)
    ensures IndexOf(s, sep).None? ==> Text.Split(s, sep)[0] == s
    ensures IndexOf(s, sep).Some? ==> Text.Split(s, sep)[0] == s[..IndexOf(s, sep).value]
  {
    match IndexOf(s, sep)
    case None =>
      Text.SplitWithoutSeparator(s, sep);
    case Some(i) =>
      assert s == s[..i] + [sep] + s[i + 1..];
      Text.SplitAround(s[..i], sep, s[i + 1..]);
      Text.SplitWithoutSeparator(s[..i], sep);
  }

  /** Splitting on the bar and reading the text between bars pick the same name. */
  lemma NameFieldByPosition(description: string)
    ensures NameField(description) == NameByPosition(description)
  {
    match IndexOf(description, Bar)
    case None =>
    case Some(i) =>
      var rest := description[i + 1..];
      assert description == description[..i] + [Bar] + rest;
      Text.SplitAround(description[..i], Bar, rest);
      Text.SplitWithoutSeparator(description[..i], Bar);
      FirstField(rest, Bar);
  }

  /** The name is a piece of the description: every character of it occurs there. */
  lemma NameWithinDescription(description: string)
    ensures NameField(description).Some? ==> forall c :: c in NameField(description).value ==> c in description
  {
    NameFieldByPosition(description);
  }

  /**
   Conversely, any line of the shape `head|name` or `head|name|tail` with a
   bar-free head and name yields exactly that name.
   */
  lemma NameFieldOfShape(head: string, name: string, tail: string)
    requires Bar !in head && Bar !in name
    requires tail == [] || tail[0] == Bar
    ensures NameField(head + [Bar] + name + tail) == Some(name)
  {
    var s := head + [Bar] + name + tail;
    assert s == head + [Bar] + (name + tail);
    Text.SplitLeadingField(head, Bar, name + tail);
    var rest := Text.Split(name + tail, Bar);
    assert Text.Split(s, Bar) == [head] + rest;
    if tail == [] {
      assert name + tail == name;
      Text.SplitWithoutSeparator(name, Bar);
      assert rest == [name];
    } else {
      assert name + tail == name + [Bar] + tail[1..];
      Text.SplitLeadingField(name, Bar, tail[1..]);
      assert rest[0] == name;
    }
  }

  /** The worked example of a germline header: `X|ALLELE1|rest` names `ALLELE1`. */
  lemma ExampleHeader()
    ensures NameField("X|ALLELE1|rest") == Some("ALLELE1")
    ensures NameField("IGHA1") == None
  {
    NameFieldOfShape("X", "ALLELE1", "|rest");
    assert "X" + [Bar] + "ALLELE1" + "|rest" == "X|ALLELE1|rest";
  }
}
